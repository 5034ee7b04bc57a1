/** The OBO export of `src/chemical_roles/export/obo.py`: the relation
    table, with incomplete rows dropped, grouped into one term per source
    reference; a row contributes a relationship only when its target
    namespace, target type and modulation have a relation in the typedef
    table, and unmapped combinations are reported once per process. */
module Obo {

  import opened Wrappers
  import opened Text
  import opened Order
  import opened Rows

  /** A row as read from the table, every cell possibly missing. */
  datatype RawRow = RawRow(
    sourceDb: Option<string>, sourceId: Option<string>, sourceName: Option<string>,
    modulation: Option<string>,
    targetType: Option<string>, targetDb: Option<string>, targetId: Option<string>, targetName: Option<string>)

  predicate Complete(r: RawRow) {
    && r.sourceDb.Some? && r.sourceId.Some? && r.sourceName.Some? && r.modulation.Some?
    && r.targetType.Some? && r.targetDb.Some? && r.targetId.Some? && r.targetName.Some?
  }

  function RowOf(r: RawRow): Row
    requires Complete(r)
  {
    Row(r.sourceDb.value, r.sourceId.value, r.sourceName.value, r.modulation.value,
        r.targetType.value, r.targetDb.value, r.targetId.value, r.targetName.value)
  }

  /** `df.dropna()`: a row survives exactly when some complete raw row reads
      as it; incomplete rows never contribute; a table with no missing cell
      passes through whole and in order. */
  function DropNa(raw: seq<RawRow>): (rows: seq<Row>)
    ensures |rows| <= |raw|
    ensures forall row :: row in rows <==> exists r :: r in raw && Complete(r) && RowOf(r) == row
    ensures (forall k :: 0 <= k < |raw| ==> Complete(raw[k])) ==>
              |rows| == |raw| && forall k :: 0 <= k < |raw| ==> rows[k] == RowOf(raw[k])
  {
    if raw == [] then []
    else
      var rest := DropNa(raw[1..]);
      assert forall r :: r in raw <==> r == raw[0] || r in raw[1..];
      assert forall k :: 1 <= k < |raw| ==> raw[1..][k - 1] == raw[k];
      if Complete(raw[0]) then [RowOf(raw[0])] + rest else rest
  }

  // ---------------------------------------------------------------- typedefs

  /** A `Reference(prefix, identifier, name)`. */
  datatype Reference = Reference(prefix: string, identifier: string, name: string)

  /** The key of the typedef table: target namespace, target type, modulation. */
  type Key = (string, string, string)

  const PositivelyRegulates := Reference("RO", "0002213", "positively regulates")
  const NegativelyRegulates := Reference("RO", "0002212", "negatively regulates")

  /** `_typedefs.get(t)`: only gene-ontology biological processes are
      mapped, activators to "positively regulates" and inhibitors to
      "negatively regulates". */
  function TypedefOf(t: Key): (r: Option<Reference>)
    ensures r.Some? <==> t.0 == "go" && t.1 == "biological process" && (t.2 == "activator" || t.2 == "inhibitor")
    ensures r.Some? ==> r.value.prefix == "RO"
    ensures r == Some(PositivelyRegulates) <==> t == ("go", "biological process", "activator")
    ensures r == Some(NegativelyRegulates) <==> t == ("go", "biological process", "inhibitor")
  {
    if t == ("go", "biological process", "activator") then Some(PositivelyRegulates)
    else if t == ("go", "biological process", "inhibitor") then Some(NegativelyRegulates)
    else None
  }

  /** The module-level `_logged` set, with the messages written so far;
      a message names the key it could not map. */
  class TypedefLog {
    var logged: set<Key>
    var written: seq<Key>

    /** Each logged key was written exactly once. */
    ghost predicate Valid()
      reads this
    {
      (forall t :: t in written <==> t in logged) && Distinct(written)
    }

    constructor ()
      ensures logged == {} && written == [] && Valid()
    {
      logged := {};
      written := [];
    }

    /** `_get_typedef`: the typedef of the key, or nothing, in which case
        the key is reported unless it was reported before. */
    method GetTypedef(t: Key) returns (r: Option<Reference>)
      requires Valid()
      modifies this
      ensures Valid()
      ensures r == TypedefOf(t)
      ensures logged == old(logged) + (if r.None? then {t} else {})
      ensures written == old(written) + (if r.None? && t !in old(logged) then [t] else [])
    {
      r := TypedefOf(t);
      if r.Some? {
        return;
      }
      if t !in logged {
        logged := logged + {t};
        written := written + [t];
      }
    }
  }

  // ---------------------------------------------------------------- grouping

  /** `ref_term` as a fold over `(key, value)` items: the keys in order of
      first appearance (the dictionary's insertion order), and the values
      gathered under each key in item order, items without a value adding
      a key but nothing under it. */
  function FirstSeen<K(==,!new), V>(items: seq<(K, Option<V>)>): (s: seq<K>)
    ensures Distinct(s)
    ensures forall k :: k in s <==> exists i :: 0 <= i < |items| && items[i].0 == k
  {
    if items == [] then []
    else
      var init := items[..|items| - 1];
      var s := FirstSeen(init);
      var k := items[|items| - 1].0;
      assert forall i :: 0 <= i < |init| ==> init[i] == items[i];
      if k in s then s else s + [k]
  }

  function Gathered<K(==,!new), V>(items: seq<(K, Option<V>)>, k: K): (vs: seq<V>)
    ensures |vs| <= |items|
  {
    if items == [] then []
    else
      var last := items[|items| - 1];
      Gathered(items[..|items| - 1], k) + (if last.0 == k && last.1.Some? then [last.1.value] else [])
  }

  /** The groups yielded for the keys `keys`: those with at least one
      value, in the order of `keys`. */
  function Groups<K(==,!new), V>(items: seq<(K, Option<V>)>, keys: seq<K>): seq<(K, seq<V>)> {
    if keys == [] then []
    else
      var k := keys[|keys| - 1];
      Groups(items, keys[..|keys| - 1]) + (if Gathered(items, k) != [] then [(k, Gathered(items, k))] else [])
  }

  /** The state of a grouping loop after the items `items`. */
  ghost predicate GroupedBy<K(!new), V>(items: seq<(K, Option<V>)>, order: seq<K>, groups: map<K, seq<V>>) {
    && order == FirstSeen(items)
    && (forall k :: k in groups <==> k in order)
    && (forall k :: k in groups ==> groups[k] == Gathered(items, k))
  }

  lemma {:induction false} GatheredAbsent<K(!new), V>(items: seq<(K, Option<V>)>, k: K)
    requires k !in FirstSeen(items)
    ensures Gathered(items, k) == []
  {
    if items != [] {
      var init := items[..|items| - 1];
      assert forall i :: 0 <= i < |init| ==> init[i] == items[i];
      assert k !in FirstSeen(init);
      GatheredAbsent(init, k);
    }
  }

  /** Extending the items by one extends the first-seen order by its key,
      unless the key was seen already. */
  lemma FirstSeenStep<K(!new), V>(items: seq<(K, Option<V>)>, i: nat)
    requires i < |items|
    ensures FirstSeen(items[..i + 1]) ==
              if items[i].0 in FirstSeen(items[..i]) then FirstSeen(items[..i]) else FirstSeen(items[..i]) + [items[i].0]
  {
    var prefix := items[..i + 1];
    assert prefix[..|prefix| - 1] == items[..i];
  }

  /** Extending the items by one adds its value, if any, to its key only. */
  lemma GatheredStep<K(!new), V>(items: seq<(K, Option<V>)>, i: nat, k: K)
    requires i < |items|
    ensures Gathered(items[..i + 1], k) ==
              Gathered(items[..i], k) + (if items[i].0 == k && items[i].1.Some? then [items[i].1.value] else [])
  {
    var prefix := items[..i + 1];
    assert prefix[..|prefix| - 1] == items[..i];
  }

  /** One item: fetch or create the key's group, then append the item's
      value when it has one. */
  lemma GroupedByStep<K(!new), V>(items: seq<(K, Option<V>)>, i: nat, order: seq<K>, groups: map<K, seq<V>>)
    requires i < |items| && GroupedBy(items[..i], order, groups)
    ensures var (k, v) := items[i];
            var order' := if k in groups then order else order + [k];
            var cur := if k in groups then groups[k] else [];
            GroupedBy(items[..i + 1], order', groups[k := cur + (if v.Some? then [v.value] else [])])
  {
    var (k, v) := items[i];
    var cur := if k in groups then groups[k] else [];
    var groups' := groups[k := cur + (if v.Some? then [v.value] else [])];
    if k !in groups {
      GatheredAbsent(items[..i], k);
    }
    FirstSeenStep(items, i);
    forall k2 | k2 in groups' ensures groups'[k2] == Gathered(items[..i + 1], k2) {
      GatheredStep(items, i, k2);
    }
  }

  lemma GroupedByNext<K(!new), V>(items: seq<(K, Option<V>)>, i: nat, order: seq<K>, groups: map<K, seq<V>>,
                                  order': seq<K>, groups': map<K, seq<V>>)
    requires i < |items| && GroupedBy(items[..i], order, groups)
    requires order' == if items[i].0 in groups then order else order + [items[i].0]
    requires groups' == groups[items[i].0 := (if items[i].0 in groups then groups[items[i].0] else [])
                                             + (if items[i].1.Some? then [items[i].1.value] else [])]
    ensures GroupedBy(items[..i + 1], order', groups')
  {
    GroupedByStep(items, i, order, groups);
  }

  /** A value is gathered under `k` exactly when some item of `k` has it. */
  lemma {:induction false} GatheredSpec<K(!new), V>(items: seq<(K, Option<V>)>, k: K, v: V)
    ensures v in Gathered(items, k) <==> exists i :: 0 <= i < |items| && items[i] == (k, Some(v))
  {
    if items != [] {
      var init := items[..|items| - 1];
      GatheredSpec(init, k, v);
      assert forall i :: 0 <= i < |init| ==> init[i] == items[i];
      if exists i :: 0 <= i < |items| && items[i] == (k, Some(v)) {
        var i :| 0 <= i < |items| && items[i] == (k, Some(v));
        if i < |init| {
          assert init[i] == (k, Some(v));
        }
      }
    }
  }

  /** A yielded group is one of `keys`, is not empty, and holds exactly
      what was gathered under its key. */
  lemma {:induction false} GroupsShape<K(!new), V>(items: seq<(K, Option<V>)>, keys: seq<K>)
    ensures forall g :: g in Groups(items, keys) ==> g.0 in keys && g.1 != [] && g.1 == Gathered(items, g.0)
  {
    if keys != [] {
      var init := keys[..|keys| - 1];
      GroupsShape(items, init);
      assert forall r :: r in init ==> r in keys;
    }
  }

  /** Every key of `keys` with a value has its group. */
  lemma {:induction false} GroupsComplete<K(!new), V>(items: seq<(K, Option<V>)>, keys: seq<K>, k: K)
    requires k in keys && Gathered(items, k) != []
    ensures (k, Gathered(items, k)) in Groups(items, keys)
  {
    var init := keys[..|keys| - 1];
    if k != keys[|keys| - 1] {
      assert k in init by {
        var j :| 0 <= j < |keys| && keys[j] == k;
        assert init[j] == k;
      }
      GroupsComplete(items, init, k);
    }
  }

  /** With distinct keys, no two groups share a key. */
  lemma {:induction false} GroupsDistinct<K(!new), V>(items: seq<(K, Option<V>)>, keys: seq<K>)
    requires Distinct(keys)
    ensures forall a, b :: 0 <= a < b < |Groups(items, keys)| ==> Groups(items, keys)[a].0 != Groups(items, keys)[b].0
  {
    if keys != [] {
      var init := keys[..|keys| - 1];
      var k := keys[|keys| - 1];
      assert Distinct(init) by {
        forall a, b | 0 <= a < b < |init| ensures init[a] != init[b] {
          assert init[a] == keys[a] && init[b] == keys[b];
        }
      }
      GroupsDistinct(items, init);
      GroupsShape(items, init);
      assert k !in init;
      var g := Groups(items, init);
      forall a | 0 <= a < |g| ensures g[a].0 != k {
        assert g[a] in g;
      }
    }
  }

  /** Keys are listed in order of first appearance: a later-listed key
      first occurs after some occurrence of an earlier one. */
  lemma {:induction false} FirstSeenOrder<K(!new), V>(items: seq<(K, Option<V>)>, a: nat, b: nat)
    requires a < b < |FirstSeen(items)|
    ensures exists i :: 0 <= i < |items| && items[i].0 == FirstSeen(items)[a]
                        && forall j :: 0 <= j <= i ==> items[j].0 != FirstSeen(items)[b]
  {
    var init := items[..|items| - 1];
    var s := FirstSeen(init);
    assert forall i :: 0 <= i < |init| ==> init[i] == items[i];
    if b < |s| {
      FirstSeenOrder(init, a, b);
      var i :| 0 <= i < |init| && init[i].0 == s[a] && forall j :: 0 <= j <= i ==> init[j].0 != s[b];
      assert items[i].0 == FirstSeen(items)[a];
    } else {
      var k := items[|items| - 1].0;
      assert s[a] in s;
      var i :| 0 <= i < |init| && init[i].0 == s[a];
      forall j | 0 <= j <= i ensures items[j].0 != k {
        assert init[j].0 in s;
      }
      assert items[i].0 == FirstSeen(items)[a];
    }
  }

  /** The yielded groups keep the order of `keys`: a group before another
      has its key earlier in `keys`. */
  lemma {:induction false} GroupsOrdered<K(!new), V>(items: seq<(K, Option<V>)>, keys: seq<K>, p: nat, q: nat)
    requires p < q < |Groups(items, keys)|
    ensures exists a, b :: 0 <= a < b < |keys| && Groups(items, keys)[p].0 == keys[a] && Groups(items, keys)[q].0 == keys[b]
  {
    var init := keys[..|keys| - 1];
    var g := Groups(items, init);
    assert forall i :: 0 <= i < |init| ==> init[i] == keys[i];
    if q < |g| {
      GroupsOrdered(items, init, p, q);
      var a, b :| 0 <= a < b < |init| && g[p].0 == init[a] && g[q].0 == init[b];
      assert Groups(items, keys)[p] == g[p] && Groups(items, keys)[q] == g[q];
    } else {
      GroupsShape(items, init);
      assert g[p] in g;
      var a :| 0 <= a < |init| && init[a] == g[p].0;
      assert Groups(items, keys)[p] == g[p];
      assert Groups(items, keys)[q].0 == keys[|keys| - 1];
    }
  }

  // ---------------------------------------------------------------- terms

  /** A relationship: the typedef and the target reference. */
  type Relationship = (Reference, Reference)

  /** A term: its reference and its relationships in the order appended. */
  type Term = (Reference, seq<Relationship>)

  function SourceRef(row: Row): Reference {
    Reference(Upper(row.sourceDb), row.sourceId, row.sourceName)
  }

  function TargetRef(row: Row): Reference {
    Reference(Upper(row.targetDb), row.targetId, row.targetName)
  }

  function KeyOf(row: Row): Key {
    (row.targetDb, row.targetType, row.modulation)
  }

  /** The relationship a row adds to its source's term, if any. */
  function RelationshipOf(row: Row): (r: Option<Relationship>)
    ensures r.Some? <==> TypedefOf(KeyOf(row)).Some?
    ensures r.Some? ==> r.value.0 == TypedefOf(KeyOf(row)).value && r.value.1 == TargetRef(row)
  {
    match TypedefOf(KeyOf(row))
    case None => None
    case Some(td) => Some((td, TargetRef(row)))
  }

  /** Each row as its source reference and the relationship it adds. */
  function Items(rows: seq<Row>): (items: seq<(Reference, Option<Relationship>)>)
    ensures |items| == |rows|
    ensures forall i {:trigger items[i]} :: 0 <= i < |rows| ==> items[i] == (SourceRef(rows[i]), RelationshipOf(rows[i]))
  {
    seq(|rows|, i requires 0 <= i < |rows| => (SourceRef(rows[i]), RelationshipOf(rows[i])))
  }

  /** What `iter_terms` yields for the complete rows `rows`. */
  function Terms(rows: seq<Row>): seq<Term> {
    Groups(Items(rows), FirstSeen(Items(rows)))
  }

  /** The keys of the rows that have no typedef. */
  function Unmapped(keys: seq<Key>): set<Key> {
    if keys == [] then {}
    else
      var last := keys[|keys| - 1];
      Unmapped(keys[..|keys| - 1]) + (if TypedefOf(last).None? then {last} else {})
  }

  function Keys(rows: seq<Row>): (keys: seq<Key>)
    ensures |keys| == |rows|
    ensures forall i {:trigger keys[i]} :: 0 <= i < |rows| ==> keys[i] == KeyOf(rows[i])
  {
    seq(|rows|, i requires 0 <= i < |rows| => KeyOf(rows[i]))
  }

  lemma UnmappedStep(keys: seq<Key>, i: nat)
    requires i < |keys|
    ensures Unmapped(keys[..i + 1]) == Unmapped(keys[..i]) + (if TypedefOf(keys[i]).None? then {keys[i]} else {})
  {
    assert keys[..i + 1][..i] == keys[..i];
  }

  lemma RelationshipFromTypedef(row: Row, typedef: Option<Reference>)
    requires typedef == TypedefOf(KeyOf(row))
    ensures RelationshipOf(row) == if typedef.Some? then Some((typedef.value, TargetRef(row))) else None
  {
  }

  /** The body of the first loop of `iter_terms`: the row's source term is
      fetched or created, then the row's relationship appended when its
      key has a typedef. */
  method AddRow(row: Row, order: seq<Reference>, relationships: map<Reference, seq<Relationship>>, log: TypedefLog)
    returns (order': seq<Reference>, relationships': map<Reference, seq<Relationship>>)
    requires log.Valid()
    modifies log
    ensures log.Valid()
    ensures log.logged == old(log.logged) + (if TypedefOf(KeyOf(row)).None? then {KeyOf(row)} else {})
    ensures var source := SourceRef(row);
            var rel := RelationshipOf(row);
            && order' == (if source in relationships then order else order + [source])
            && relationships' == relationships[source := (if source in relationships then relationships[source] else [])
                                                          + (if rel.Some? then [rel.value] else [])]
  {
    var source := SourceRef(row);
    var current := if source in relationships then relationships[source] else [];
    order' := order;
    if source !in relationships {
      order' := order + [source];
    }
    var typedef := log.GetTypedef(KeyOf(row));
    RelationshipFromTypedef(row, typedef);
    if typedef.Some? {
      relationships' := relationships[source := current + [(typedef.value, TargetRef(row))]];
    } else {
      relationships' := relationships[source := current];
      assert current + [] == current;
    }
  }

  /** `iter_terms`: incomplete rows are dropped; one term per distinct
      upper-cased source reference collects the relationships of its
      rows, in row order; terms without relationships are not yielded;
      keys without a typedef are reported through `log`, once each. */
  method IterTerms(raw: seq<RawRow>, log: TypedefLog) returns (terms: seq<Term>)
    requires log.Valid()
    modifies log
    ensures log.Valid()
    ensures terms == Terms(DropNa(raw))
    ensures log.logged == old(log.logged) + Unmapped(Keys(DropNa(raw)))
  {
    var rows := DropNa(raw);
    var order, relationships := GroupRows(rows, log);
    terms := YieldTerms(Items(rows), order, relationships);
  }

  /** The first loop of `iter_terms`, over the complete rows. */
  method GroupRows(rows: seq<Row>, log: TypedefLog)
    returns (order: seq<Reference>, relationships: map<Reference, seq<Relationship>>)
    requires log.Valid()
    modifies log
    ensures log.Valid()
    ensures GroupedBy(Items(rows), order, relationships)
    ensures log.logged == old(log.logged) + Unmapped(Keys(rows))
  {
    ghost var items := Items(rows);
    ghost var keys := Keys(rows);
    order := [];
    relationships := map[];
    for i := 0 to |rows|
      invariant log.Valid()
      invariant GroupedBy(items[..i], order, relationships)
      invariant log.logged == old(log.logged) + Unmapped(keys[..i])
    {
      ghost var (order0, relationships0) := (order, relationships);
      assert items[i] == (SourceRef(rows[i]), RelationshipOf(rows[i])) && keys[i] == KeyOf(rows[i]);
      order, relationships := AddRow(rows[i], order, relationships, log);
      GroupedByNext(items, i, order0, relationships0, order, relationships);
      UnmappedStep(keys, i);
    }
    assert items[..|rows|] == items && keys[..|rows|] == keys;
  }

  /** The second loop of `iter_terms`: the terms in insertion order, those
      without relationships skipped. */
  method YieldTerms(ghost items: seq<(Reference, Option<Relationship>)>, order: seq<Reference>,
                    relationships: map<Reference, seq<Relationship>>)
    returns (terms: seq<Term>)
    requires GroupedBy(items, order, relationships)
    ensures terms == Groups(items, order)
  {
    terms := [];
    for j := 0 to |order|
      invariant terms == Groups(items, order[..j])
    {
      assert order[..j + 1][..j] == order[..j];
      var source := order[j];
      if relationships[source] != [] {
        terms := terms + [(source, relationships[source])];
      }
    }
    assert order[..|order|] == order;
  }

  // ---------------------------------------------------------------- properties

  /** What the export yields, read against the table: every yielded term is
      a distinct source with the relationships of its complete rows, and
      every complete row with a typedef shows up in its source's term. */
  lemma ExportedTerms(rows: seq<Row>)
    ensures var terms := Terms(rows);
            && (forall a, b :: 0 <= a < b < |terms| ==> terms[a].0 != terms[b].0)
            && (forall t :: t in terms ==> t.1 != [] && t.1 == Gathered(Items(rows), t.0))
            && (forall i :: 0 <= i < |rows| && RelationshipOf(rows[i]).Some? ==>
                  (SourceRef(rows[i]), Gathered(Items(rows), SourceRef(rows[i]))) in terms)
  {
    var items := Items(rows);
    var keys := FirstSeen(items);
    GroupsDistinct(items, keys);
    GroupsShape(items, keys);
    forall i | 0 <= i < |rows| && RelationshipOf(rows[i]).Some?
      ensures (SourceRef(rows[i]), Gathered(items, SourceRef(rows[i]))) in Groups(items, keys)
    {
      var ref := SourceRef(rows[i]);
      assert items[i] == (ref, Some(RelationshipOf(rows[i]).value));
      GatheredSpec(items, ref, RelationshipOf(rows[i]).value);
      assert ref in keys;
      GroupsComplete(items, keys, ref);
    }
  }

  /** A relationship of a term comes from a row of its source with a
      typedef: "positively regulates" or "negatively regulates" towards a
      gene-ontology target whose prefix is upper-cased. */
  lemma RelationshipsAreRegulations(rows: seq<Row>, t: Term, rel: Relationship)
    requires t in Terms(rows) && rel in t.1
    ensures rel.0 == PositivelyRegulates || rel.0 == NegativelyRegulates
    ensures exists i :: 0 <= i < |rows| && SourceRef(rows[i]) == t.0 && rows[i].targetDb == "go"
              && rel.1 == Reference(Upper(rows[i].targetDb), rows[i].targetId, rows[i].targetName)
  {
    var items := Items(rows);
    GroupsShape(items, FirstSeen(items));
    GatheredSpec(items, t.0, rel);
    var i :| 0 <= i < |items| && items[i] == (t.0, Some(rel));
    assert RelationshipOf(rows[i]) == Some(rel);
  }

  /** The yielded terms come out in the order their sources first appear
      in the table: for a term before another, some row of the first comes
      before every row of the second. */
  lemma TermsFirstSeen(rows: seq<Row>, p: nat, q: nat)
    requires p < q < |Terms(rows)|
    ensures exists i :: 0 <= i < |rows| && SourceRef(rows[i]) == Terms(rows)[p].0
                        && forall j :: 0 <= j <= i ==> SourceRef(rows[j]) != Terms(rows)[q].0
  {
    var items := Items(rows);
    var keys := FirstSeen(items);
    GroupsOrdered(items, keys, p, q);
    var a, b :| 0 <= a < b < |keys| && Terms(rows)[p].0 == keys[a] && Terms(rows)[q].0 == keys[b];
    FirstSeenOrder(items, a, b);
    var i :| 0 <= i < |items| && items[i].0 == keys[a]
             && forall j :: 0 <= j <= i ==> items[j].0 != keys[b];
    assert SourceRef(rows[i]) == keys[a];
    forall j | 0 <= j <= i ensures SourceRef(rows[j]) != keys[b] {
      assert items[j].0 == SourceRef(rows[j]);
    }
  }

  /** `get_obo()`: the ontology named "Chemical Roles Graph" with prefix
      `crog` and the exported terms. */
  datatype Ontology = Ontology(name: string, ontology: string, terms: seq<Term>)

  method GetObo(raw: seq<RawRow>, log: TypedefLog) returns (o: Ontology)
    requires log.Valid()
    modifies log
    ensures log.Valid()
    ensures o == Ontology("Chemical Roles Graph", "crog", Terms(DropNa(raw)))
  {
    var terms := IterTerms(raw, log);
    o := Ontology("Chemical Roles Graph", "crog", terms);
  }
}

/** The two stages of `get_relations_df` shared by `src/chemical_roles/export/utils.py`
    and the older top-level `generate_export.py`:

    Stage A walks the curated rows and collects, for every ChEBI role, the
    target entries the row stands for (a gene and its UniProt proteins, a
    FamPlex family and its member genes, the members of an enzyme class and
    its GO activities, or the target as it is).

    Stage B copies every role's entries onto each chemical that bears the
    role. The two generations of the code differ in a few details, which
    `Variant` names. */
module TargetExpansion {

  import opened Wrappers
  import opened Text
  import opened Rows
  import opened ExpasyClosure

  /** `Current` is `src/chemical_roles/export/utils.py`, `Legacy` is `generate_export.py`. */
  datatype Variant = Current | Legacy

  /** The namespace string of enzyme classes. */
  function EcNamespace(v: Variant): string {
    if v == Current then "eccode" else "ec-code"
  }

  /** `DB_TO_TYPE`: the entity type of an enzyme-closure member by its namespace. */
  function DbToType(v: Variant): map<string, string> {
    map[EcNamespace(v) := "protein family", "uniprot" := "protein", "prosite" := "protein"]
  }

  /** A row of FamPlex's `relations.csv`, with the column names the code gives them. */
  datatype FamplexRelation = FamplexRelation(
    sourceId: string, sourceName: string, rel: string, targetDb: string, targetName: string)

  /** The outside resources the engine reads: protmapper's HGNC tables and
      mnemonics, FamPlex's relations, the ExPASy closure and ec2go mapping,
      ChEBI's role-to-bearer table and sub-hierarchies, and entity names. */
  datatype Lookups = Lookups(
    hgncToUniprot: map<string, string>,
    mnemonic: string -> string,
    hgncNameToId: map<string, string>,
    famplexRelations: seq<FamplexRelation>,
    ecClosure: map<string, seq<Node>>,
    ec2go: map<string, seq<(string, string)>>,
    roleToChemicals: map<string, seq<Curie>>,
    subRoles: string -> set<string>,
    nameOf: Curie -> string)

  /** `d.get(k, [])`. */
  function Get<K, V>(m: map<K, seq<V>>, k: K): seq<V> {
    if k in m then m[k] else []
  }

  // ---------------------------------------------------------------- FamPlex

  /** A FamPlex row saying that an HGNC gene is a member of a FamPlex family. */
  predicate IsMembership(r: FamplexRelation) {
    Lower(r.sourceId) == "hgnc" && r.rel == "isa" && Lower(r.targetDb) == "fplx"
  }

  /** The family-to-members table `_get_famplex` builds, one relation at a time. */
  function FamplexMembers(rels: seq<FamplexRelation>, names: map<string, string>): map<string, seq<(string, string)>> {
    if rels == [] then map[]
    else
      var m := FamplexMembers(rels[..|rels| - 1], names);
      var r := rels[|rels| - 1];
      if IsMembership(r) && r.sourceName in names then
        m[r.targetName := Get(m, r.targetName) + [(names[r.sourceName], r.sourceName)]]
      else m
  }

  /** `_get_famplex`: every membership row whose gene symbol has an HGNC id
      adds `(hgnc_id, symbol)` to its family's list. */
  method GetFamplex(rels: seq<FamplexRelation>, names: map<string, string>)
    returns (members: map<string, seq<(string, string)>>)
    ensures members == FamplexMembers(rels, names)
  {
    members := map[];
    for i := 0 to |rels|
      invariant members == FamplexMembers(rels[..i], names)
    {
      var r := rels[i];
      if IsMembership(r) {
        if r.sourceName in names {
          var hgncId := names[r.sourceName];
          members := members[r.targetName := Get(members, r.targetName) + [(hgncId, r.sourceName)]];
        }
      }
      assert rels[..i + 1][..i] == rels[..i];
    }
    assert rels[..|rels|] == rels;
  }

  /** A family lists a gene iff some membership row names the family and
      the gene's symbol, and the symbol is known to HGNC; unknown symbols
      are dropped, and a family with no known member has no list at all. */
  lemma {:induction false} FamplexMembersSpec(rels: seq<FamplexRelation>, names: map<string, string>, family: string, member: (string, string))
    ensures family in FamplexMembers(rels, names) ==> FamplexMembers(rels, names)[family] != []
    ensures member in Get(FamplexMembers(rels, names), family) <==>
              exists i :: 0 <= i < |rels| && IsMembership(rels[i]) && rels[i].targetName == family
                && rels[i].sourceName == member.1 && member.1 in names && names[member.1] == member.0
  {
    if rels != [] {
      var pre := rels[..|rels| - 1];
      FamplexMembersSpec(pre, names, family, member);
      assert forall i :: 0 <= i < |pre| ==> pre[i] == rels[i];
    }
  }

  // ---------------------------------------------------------------- HGNC to UniProt

  /** The UniProt ids of a list of pairs, in order. */
  function Ids(pairs: seq<(string, string)>): (r: seq<string>)
    ensures |r| == |pairs|
  {
    seq(|pairs|, k requires 0 <= k < |pairs| => pairs[k].0)
  }

  /** `get_uniprot_id_names`: the `', '`-separated UniProt ids recorded for a
      gene, each with its mnemonic. For an unknown gene the current code
      yields nothing and the legacy code raises `KeyError`; before re-raising,
      its handler reads the table's first item, which raises `IndexError`
      instead when the table is empty. */
  function UniprotIdNames(v: Variant, lk: Lookups, hgncId: string): (r: Result<seq<(string, string)>>)
    ensures r.Failure? <==> v == Legacy && hgncId !in lk.hgncToUniprot
    ensures r.Failure? ==> r.error == if lk.hgncToUniprot == map[] then IndexError("list index out of range") else KeyError(hgncId)
    ensures r.Success? && hgncId !in lk.hgncToUniprot ==> r.value == []
    ensures r.Success? && hgncId in lk.hgncToUniprot ==>
              |r.value| >= 1 && Join(Ids(r.value), ", ") == lk.hgncToUniprot[hgncId]
    ensures r.Success? ==> forall k :: 0 <= k < |r.value| ==>
              r.value[k].1 == lk.mnemonic(r.value[k].0) && !Contains(r.value[k].0, ", ")
  {
    if hgncId !in lk.hgncToUniprot then
      match v
      case Current => Success([])
      case Legacy =>
        if lk.hgncToUniprot == map[] then Failure(IndexError("list index out of range"))
        else Failure(KeyError(hgncId))
    else
      var ids := SplitOn(lk.hgncToUniprot[hgncId], ", ");
      var pairs := seq(|ids|, k requires 0 <= k < |ids| => (ids[k], lk.mnemonic(ids[k])));
      assert Ids(pairs) == ids;
      JoinSplitOn(lk.hgncToUniprot[hgncId], ", ");
      Success(pairs)
  }

  function UniprotEntries(m: string, pairs: seq<(string, string)>): (r: seq<Entry>)
    ensures |r| == |pairs|
    ensures forall k :: 0 <= k < |r| ==> r[k] == Entry(m, "protein", "uniprot", pairs[k].0, pairs[k].1)
  {
    seq(|pairs|, k requires 0 <= k < |pairs| => Entry(m, "protein", "uniprot", pairs[k].0, pairs[k].1))
  }

  /** The entries of one gene: itself retyped as a protein, then its UniProt proteins. */
  function HgncEntries(v: Variant, lk: Lookups, m: string, hgncId: string, name: string): Result<seq<Entry>> {
    match UniprotIdNames(v, lk, hgncId)
    case Failure(e) => Failure(e)
    case Success(pairs) => Success([Entry(m, "protein", "hgnc", hgncId, name)] + UniprotEntries(m, pairs))
  }

  /** The entries of a family's members, each gene followed by its proteins. */
  function FamilyEntries(v: Variant, lk: Lookups, m: string, members: seq<(string, string)>): (r: Result<seq<Entry>>)
    ensures v == Current ==> r.Success?
    ensures r.Success? ==> forall k :: 0 <= k < |members| ==>
              Entry(m, "protein", "hgnc", members[k].0, members[k].1) in r.value
    ensures r.Success? ==> forall e :: e in r.value ==>
              e.modulation == m && e.targetType == "protein" && (e.targetDb == "hgnc" || e.targetDb == "uniprot")
  {
    if members == [] then Success([])
    else
      match HgncEntries(v, lk, m, members[0].0, members[0].1)
      case Failure(e) => Failure(e)
      case Success(head) =>
        match FamilyEntries(v, lk, m, members[1..])
        case Failure(e) => Failure(e)
        case Success(tail) =>
          assert forall k :: 1 <= k < |members| ==> members[k] == members[1..][k - 1];
          Success(head + tail)
  }

  // ---------------------------------------------------------------- enzyme classes

  /** One entry per closure member, typed through `DB_TO_TYPE`; a member in a
      namespace the table lacks raises `KeyError`. */
  function ClosureEntries(v: Variant, m: string, children: seq<Node>): (r: Result<seq<Entry>>)
    ensures r.Success? <==> forall c :: c in children ==> c.db in DbToType(v)
    ensures r.Failure? ==>
              (r.error.KeyError? && r.error.key !in DbToType(v) && exists c :: c in children && c.db == r.error.key)
    ensures r.Success? ==> |r.value| == |children| && forall k :: 0 <= k < |children| ==>
              r.value[k] == Entry(m, DbToType(v)[children[k].db], children[k].db, children[k].id, children[k].name)
  {
    if children == [] then Success([])
    else
      var c := children[0];
      if c.db !in DbToType(v) then Failure(KeyError(c.db))
      else
        match ClosureEntries(v, m, children[1..])
        case Failure(e) => Failure(e)
        case Success(tail) => Success([Entry(m, DbToType(v)[c.db], c.db, c.id, c.name)] + tail)
  }

  function GoEntries(m: string, gos: seq<(string, string)>): (r: seq<Entry>)
    ensures |r| == |gos|
    ensures forall k :: 0 <= k < |r| ==> r[k] == Entry(m, "molecular function", "go", gos[k].0, gos[k].1)
  {
    seq(|gos|, k requires 0 <= k < |gos| => Entry(m, "molecular function", "go", gos[k].0, gos[k].1))
  }

  // ---------------------------------------------------------------- Stage A

  /** `s[len(db) + 1:]` when `s` starts with `DB.upper() + ':'`, else `s`. */
  function StripPrefix(db: string, s: string): (r: string)
    ensures StartsWith(s, Upper(db) + ":") ==> Upper(db) + ":" + r == s
    ensures !StartsWith(s, Upper(db) + ":") ==> r == s
  {
    if StartsWith(s, Upper(db) + ":") then s[|db| + 1..] else s
  }

  /** One prefix goes, not two, and a lower-case prefix stays. */
  lemma StripPrefixOnce()
    ensures StripPrefix("chebi", "CHEBI:CHEBI:1") == "CHEBI:1"
    ensures StripPrefix("chebi", "chebi:1") == "chebi:1"
  {
    assert Upper("chebi") == "CHEBI";
    assert StartsWith("CHEBI:CHEBI:1", "CHEBI:");
    assert !StartsWith("chebi:1", "CHEBI:") by { assert "chebi:1"[0] != "CHEBI:"[0]; }
  }

  /** The source and target ids as the engine keys them. */
  function SourceKey(v: Variant, row: Row): Curie {
    (row.sourceDb, if v == Current then StripPrefix(row.sourceDb, row.sourceId) else row.sourceId)
  }

  function TargetId(v: Variant, row: Row): string {
    if v == Current then StripPrefix(row.targetDb, row.targetId) else row.targetId
  }

  /** What one curated row adds to the accumulator `x`: the role it is filed
      under and its entries, `None` when the row is skipped, or the
      exception the row raises. */
  function TargetEntries(v: Variant, lk: Lookups, members: map<string, seq<(string, string)>>, row: Row)
    : (r: Result<Option<(Curie, seq<Entry>)>>)
    ensures row.sourceDb != "chebi" ==> r == Success(None)
    ensures r.Success? && r.value.Some? ==> r.value.value.0 == SourceKey(v, row) && r.value.value.0.0 == "chebi"
    ensures r.Success? && r.value.Some? ==> forall e :: e in r.value.value.1 ==> e.modulation == row.modulation
    ensures r.Failure? ==> row.targetDb == EcNamespace(v) || (v == Legacy && row.targetDb in {"hgnc", "fplx"})
  {
    if row.sourceDb != "chebi" then Success(None)
    else
      var key := SourceKey(v, row);
      var tid := TargetId(v, row);
      var m := row.modulation;
      if row.targetDb == "hgnc" then
        match HgncEntries(v, lk, m, tid, row.targetName)
        case Failure(e) => Failure(e)
        case Success(es) => Success(Some((key, es)))
      else if row.targetDb == "fplx" then
        match FamilyEntries(v, lk, m, Get(members, tid))
        case Failure(e) => Failure(e)
        case Success(es) => Success(Some((key, [Entry(m, row.targetType, "fplx", tid, row.targetName)] + es)))
      else if row.targetDb == EcNamespace(v) then
        if tid !in lk.ecClosure then Success(None)
        else
          match ClosureEntries(v, m, lk.ecClosure[tid])
          case Failure(e) => Failure(e)
          case Success(es) => Success(Some((key, es + GoEntries(m, Get(lk.ec2go, tid)))))
      else Success(Some((key, [Entry(m, row.targetType, row.targetDb, tid, row.targetName)])))
  }

  /** An `hgnc` target: the gene retyped as a protein comes first, then one
      `uniprot` protein per recorded UniProt id; an unknown gene adds no
      proteins (current code) or raises (legacy code). */
  lemma HgncTarget(v: Variant, lk: Lookups, members: map<string, seq<(string, string)>>, row: Row)
    requires row.sourceDb == "chebi" && row.targetDb == "hgnc"
    ensures var r := TargetEntries(v, lk, members, row);
            var tid := TargetId(v, row);
            && (r.Failure? <==> v == Legacy && tid !in lk.hgncToUniprot)
            && (r.Success? ==>
                  && r.value.Some?
                  && r.value.value.1[0] == Entry(row.modulation, "protein", "hgnc", tid, row.targetName)
                  && |r.value.value.1| == 1 + |UniprotIdNames(v, lk, tid).value|
                  && (tid !in lk.hgncToUniprot ==> |r.value.value.1| == 1)
                  && forall k :: 1 <= k < |r.value.value.1| ==>
                       r.value.value.1[k].targetDb == "uniprot" && r.value.value.1[k].targetType == "protein")
  {
  }

  /** An `fplx` target keeps its own entry, with its own target type, in
      front of the entries of every known member gene. */
  lemma FplxTarget(v: Variant, lk: Lookups, members: map<string, seq<(string, string)>>, row: Row)
    requires row.sourceDb == "chebi" && row.targetDb == "fplx"
    ensures var r := TargetEntries(v, lk, members, row);
            var tid := TargetId(v, row);
            && (v == Current ==> r.Success?)
            && (r.Success? ==>
                  && r.value.Some?
                  && r.value.value.1[0] == Entry(row.modulation, row.targetType, "fplx", tid, row.targetName)
                  && forall g :: g in Get(members, tid) ==>
                       Entry(row.modulation, "protein", "hgnc", g.0, g.1) in r.value.value.1)
  {
    var tid := TargetId(v, row);
    var fam := FamilyEntries(v, lk, row.modulation, Get(members, tid));
    if fam.Success? {
      forall g | g in Get(members, tid)
        ensures Entry(row.modulation, "protein", "hgnc", g.0, g.1) in fam.value
      {
        var k :| 0 <= k < |Get(members, tid)| && Get(members, tid)[k] == g;
      }
    }
  }

  /** An enzyme-class target with no closure is skipped. Otherwise it stands
      for one entry per closure member, typed through `DB_TO_TYPE`, then one
      `molecular function` entry per GO activity; it raises iff some member
      lies in a namespace the table lacks. The target's own entry appears
      only if the class is listed in its own closure, which
      `ClosureExcludesClass` rules out for ExPASy data. */
  lemma EcTarget(v: Variant, lk: Lookups, members: map<string, seq<(string, string)>>, row: Row)
    requires row.sourceDb == "chebi" && row.targetDb == EcNamespace(v)
    ensures var r := TargetEntries(v, lk, members, row);
            var tid := TargetId(v, row);
            && (tid !in lk.ecClosure ==> r == Success(None))
            && (tid in lk.ecClosure ==>
                  && (r.Failure? <==> exists c :: c in lk.ecClosure[tid] && c.db !in DbToType(v))
                  && (r.Success? ==>
                        var es := r.value.value.1;
                        var n := |lk.ecClosure[tid]|;
                        && |es| == n + |Get(lk.ec2go, tid)|
                        && (forall k :: 0 <= k < n ==>
                              (es[k].targetDb == lk.ecClosure[tid][k].db && es[k].targetId == lk.ecClosure[tid][k].id
                               && es[k].targetType == DbToType(v)[lk.ecClosure[tid][k].db]))
                        && (forall k :: n <= k < |es| ==> es[k].targetType == "molecular function" && es[k].targetDb == "go")
                        && (Entry(row.modulation, row.targetType, row.targetDb, tid, row.targetName) in es ==>
                              Node(row.targetDb, tid, row.targetName) in lk.ecClosure[tid])))
  {
    var tid := TargetId(v, row);
    if tid in lk.ecClosure {
      var r := TargetEntries(v, lk, members, row);
      var cl := ClosureEntries(v, row.modulation, lk.ecClosure[tid]);
      if r.Success? {
        var es := r.value.value.1;
        var own := Entry(row.modulation, row.targetType, row.targetDb, tid, row.targetName);
        if own in es {
          var k :| 0 <= k < |es| && es[k] == own;
          assert k < |lk.ecClosure[tid]|;
          assert lk.ecClosure[tid][k] == Node(row.targetDb, tid, row.targetName);
        }
      }
    }
  }

  /** Any other target passes through as it is (bar the prefix strip). */
  lemma OtherTarget(v: Variant, lk: Lookups, members: map<string, seq<(string, string)>>, row: Row)
    requires row.sourceDb == "chebi" && row.targetDb !in {"hgnc", "fplx", EcNamespace(v)}
    ensures TargetEntries(v, lk, members, row) ==
              Success(Some((SourceKey(v, row), [Entry(row.modulation, row.targetType, row.targetDb, TargetId(v, row), row.targetName)])))
  {
  }

  /** `x[k].extend(es)` on a `defaultdict(list)`: the key appears only once
      something is appended under it. */
  function Append(x: map<Curie, seq<Entry>>, k: Curie, es: seq<Entry>): map<Curie, seq<Entry>> {
    if es == [] then x else x[k := Get(x, k) + es]
  }

  /** The accumulator after Stage A has seen `rows`, or the first exception. */
  function Accumulate(v: Variant, lk: Lookups, members: map<string, seq<(string, string)>>, rows: seq<Row>)
    : Result<map<Curie, seq<Entry>>>
  {
    if rows == [] then Success(map[])
    else
      match Accumulate(v, lk, members, rows[..|rows| - 1])
      case Failure(e) => Failure(e)
      case Success(x) =>
        match TargetEntries(v, lk, members, rows[|rows| - 1])
        case Failure(e) => Failure(e)
        case Success(None) => Success(x)
        case Success(Some((k, es))) => Success(Append(x, k, es))
  }

  /** Stage A: the loop over the curated rows filling `x`. */
  method InferOverTargets(v: Variant, lk: Lookups, members: map<string, seq<(string, string)>>, rows: seq<Row>)
    returns (r: Result<map<Curie, seq<Entry>>>)
    ensures r == Accumulate(v, lk, members, rows)
  {
    var x: map<Curie, seq<Entry>> := map[];
    for i := 0 to |rows|
      invariant Accumulate(v, lk, members, rows[..i]) == Success(x)
    {
      assert rows[..i + 1][..i] == rows[..i];
      var step := TargetEntries(v, lk, members, rows[i]);
      match step {
        case Failure(e) =>
          AccumulateFailureSticks(v, lk, members, rows, i + 1);
          return Failure(e);
        case Success(None) =>
        case Success(Some((k, es))) =>
          x := Append(x, k, es);
      }
    }
    assert rows[..|rows|] == rows;
    r := Success(x);
  }

  /** Once a row has raised, every longer prefix has raised too. */
  lemma {:induction false} AccumulateFailureSticks(v: Variant, lk: Lookups, members: map<string, seq<(string, string)>>, rows: seq<Row>, n: nat)
    requires 0 < n <= |rows|
    requires Accumulate(v, lk, members, rows[..n]).Failure?
    ensures Accumulate(v, lk, members, rows) == Accumulate(v, lk, members, rows[..n])
    decreases |rows| - n
  {
    if n < |rows| {
      assert rows[..n + 1][..n] == rows[..n];
      AccumulateFailureSticks(v, lk, members, rows, n + 1);
    } else {
      assert rows[..n] == rows;
    }
  }

  /** Row `row` files entry `e` under role `k`. */
  predicate Contributes(v: Variant, lk: Lookups, members: map<string, seq<(string, string)>>, row: Row, k: Curie, e: Entry) {
    match TargetEntries(v, lk, members, row)
    case Success(Some((k', es))) => k' == k && e in es
    case _ => false
  }

  /** Stage A fails iff some curated row raises. */
  lemma {:induction false} AccumulateFails(v: Variant, lk: Lookups, members: map<string, seq<(string, string)>>, rows: seq<Row>)
    ensures Accumulate(v, lk, members, rows).Failure? <==>
              exists i :: 0 <= i < |rows| && TargetEntries(v, lk, members, rows[i]).Failure?
  {
    if rows != [] {
      var pre := rows[..|rows| - 1];
      AccumulateFails(v, lk, members, pre);
      assert forall i :: 0 <= i < |pre| ==> pre[i] == rows[i];
    }
  }

  /** When Stage A succeeds, every key is a ChEBI role with a non-empty list. */
  lemma {:induction false} AccumulateKeys(v: Variant, lk: Lookups, members: map<string, seq<(string, string)>>, rows: seq<Row>)
    requires Accumulate(v, lk, members, rows).Success?
    ensures forall k :: k in Accumulate(v, lk, members, rows).value ==>
              k.0 == "chebi" && Accumulate(v, lk, members, rows).value[k] != []
  {
    if rows != [] {
      AccumulateKeys(v, lk, members, rows[..|rows| - 1]);
    }
  }

  lemma {:induction false} AccumulateEntryOrigin(v: Variant, lk: Lookups, members: map<string, seq<(string, string)>>, rows: seq<Row>, k: Curie, e: Entry)
    requires Accumulate(v, lk, members, rows).Success?
    requires e in Get(Accumulate(v, lk, members, rows).value, k)
    ensures exists i :: 0 <= i < |rows| && Contributes(v, lk, members, rows[i], k, e)
  {
    var pre := rows[..|rows| - 1];
    var x := Accumulate(v, lk, members, pre).value;
    if e in Get(x, k) {
      AccumulateEntryOrigin(v, lk, members, pre, k, e);
      var i :| 0 <= i < |pre| && Contributes(v, lk, members, pre[i], k, e);
      assert rows[i] == pre[i];
    } else {
      assert Contributes(v, lk, members, rows[|rows| - 1], k, e);
    }
  }

  lemma {:induction false} AccumulateEntryPresent(v: Variant, lk: Lookups, members: map<string, seq<(string, string)>>, rows: seq<Row>, k: Curie, e: Entry, i: nat)
    requires Accumulate(v, lk, members, rows).Success?
    requires i < |rows| && Contributes(v, lk, members, rows[i], k, e)
    ensures e in Get(Accumulate(v, lk, members, rows).value, k)
  {
    var pre := rows[..|rows| - 1];
    if i < |pre| {
      assert pre[i] == rows[i];
      AccumulateEntryPresent(v, lk, members, pre, k, e, i);
    }
  }

  /** When Stage A succeeds, an entry is listed under a role iff some
      curated row contributes it. */
  lemma AccumulateEntries(v: Variant, lk: Lookups, members: map<string, seq<(string, string)>>, rows: seq<Row>, k: Curie, e: Entry)
    requires Accumulate(v, lk, members, rows).Success?
    ensures e in Get(Accumulate(v, lk, members, rows).value, k) <==>
              exists i :: 0 <= i < |rows| && Contributes(v, lk, members, rows[i], k, e)
  {
    if e in Get(Accumulate(v, lk, members, rows).value, k) {
      AccumulateEntryOrigin(v, lk, members, rows, k, e);
    }
    if exists i :: 0 <= i < |rows| && Contributes(v, lk, members, rows[i], k, e) {
      var i :| 0 <= i < |rows| && Contributes(v, lk, members, rows[i], k, e);
      AccumulateEntryPresent(v, lk, members, rows, k, e, i);
    }
  }

  // ---------------------------------------------------------------- Stage B

  /** The chemicals bearing role `role`, or any of its ChEBI sub-roles when
      `useSubRoles` is set. Only ChEBI roles reach Stage B, and bearers are
      looked up in ChEBI's role-to-children table. */
  function Bearers(lk: Lookups, useSubRoles: bool, role: Curie): (r: set<Curie>)
    ensures forall c :: c in Get(lk.roleToChemicals, role.1) ==> c in r
  {
    var roleIds := {role.1} + (if role.0 == "chebi" && useSubRoles then lk.subRoles(role.1) else {});
    set id, c | id in roleIds && c in Get(lk.roleToChemicals, id) :: c
  }

  /** Sub-roles only ever add bearers, and without them a role's bearers
      are exactly its own table entry. */
  lemma BearersSubRoles(lk: Lookups, role: Curie)
    ensures Bearers(lk, false, role) == set c | c in Get(lk.roleToChemicals, role.1)
    ensures Bearers(lk, false, role) <= Bearers(lk, true, role)
    ensures role.0 != "chebi" ==> Bearers(lk, true, role) == Bearers(lk, false, role)
  {
  }

  /** The rows that copy `entries` onto each chemical of `chems`. */
  function BearerRowSet(entries: seq<Entry>, chems: set<Curie>, nameOf: Curie -> string): set<Row> {
    set e, c | e in entries && c in chems :: WithSource(c, nameOf(c), e)
  }

  /** The nested loops of Stage B for one role: one row per entry and
      bearer, the bearer as source and the entry verbatim as target. */
  method BearerRows(entries: seq<Entry>, chems: set<Curie>, nameOf: Curie -> string) returns (rows: seq<Row>)
    ensures |rows| == |entries| * |chems|
    ensures forall r :: r in rows <==> r in BearerRowSet(entries, chems, nameOf)
  {
    rows := [];
    for i := 0 to |entries|
      invariant |rows| == i * |chems|
      invariant forall r :: r in rows <==> r in BearerRowSet(entries[..i], chems, nameOf)
    {
      var e := entries[i];
      var rest := chems;
      ghost var before := rows;
      while rest != {}
        invariant rest <= chems
        invariant |rows| == |before| + (|chems| - |rest|)
        invariant forall r :: r in rows <==>
                    r in before || exists c :: c in chems - rest && r == WithSource(c, nameOf(c), e)
      {
        var c :| c in rest;
        rows := rows + [WithSource(c, nameOf(c), e)];
        rest := rest - {c};
      }
      assert entries[..i + 1] == entries[..i] + [e];
      forall r ensures r in rows <==> r in BearerRowSet(entries[..i + 1], chems, nameOf) {
        if r in BearerRowSet(entries[..i + 1], chems, nameOf) {
          var e', c :| e' in entries[..i + 1] && c in chems && r == WithSource(c, nameOf(c), e');
          if e' != e { assert r in BearerRowSet(entries[..i], chems, nameOf); }
        }
        if r in rows && r !in before {
          var c :| c in chems && r == WithSource(c, nameOf(c), e);
          assert e in entries[..i + 1];
        }
        if r in before {
          var e', c :| e' in entries[..i] && c in chems && r == WithSource(c, nameOf(c), e');
          assert e' in entries[..i + 1];
        }
      }
      assert |rows| == (i + 1) * |chems| by {
        assert (i + 1) * |chems| == i * |chems| + |chems|;
      }
    }
    assert entries[..|entries|] == entries;
  }

  /** Every inferred row: role `k`'s entries on each of its bearers. */
  function InferredRows(lk: Lookups, useSubRoles: bool, x: map<Curie, seq<Entry>>, roles: set<Curie>): set<Row> {
    set k, e, c | k in roles && k in x && e in x[k] && c in Bearers(lk, useSubRoles, k) :: WithSource(c, lk.nameOf(c), e)
  }

  /** Stage B: every role of `x` whose bearer set is not empty contributes
      its entries times its bearers; a role without bearers contributes
      nothing. */
  method InferOverRoles(lk: Lookups, useSubRoles: bool, x: map<Curie, seq<Entry>>) returns (rows: seq<Row>)
    ensures forall r :: r in rows <==> r in InferredRows(lk, useSubRoles, x, x.Keys)
  {
    rows := [];
    var todo := x.Keys;
    while todo != {}
      invariant todo <= x.Keys
      invariant forall r :: r in rows <==> r in InferredRows(lk, useSubRoles, x, x.Keys - todo)
    {
      var k :| k in todo;
      var chems := Bearers(lk, useSubRoles, k);
      if chems != {} {
        var more := BearerRows(x[k], chems, lk.nameOf);
        rows := rows + more;
      }
      InferredRowsStep(lk, useSubRoles, x, x.Keys - todo, k);
      todo := todo - {k};
    }
  }

  lemma InferredRowsStep(lk: Lookups, useSubRoles: bool, x: map<Curie, seq<Entry>>, done: set<Curie>, k: Curie)
    requires k in x
    ensures InferredRows(lk, useSubRoles, x, done + {k})
            == InferredRows(lk, useSubRoles, x, done) + BearerRowSet(x[k], Bearers(lk, useSubRoles, k), lk.nameOf)
  {
  }
}

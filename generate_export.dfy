/** The older top-level `generate_export.py`: its own `get_relations_df`
    (only role-expanded rows, no prefix strip, `ec-code` enzymes, an
    unknown HGNC gene raises), the two sorted tables `write_export` writes,
    and the dispatch tables that turn rows into BEL statements. */
module GenerateExport {

  import opened Wrappers
  import opened Order
  import opened Rows
  import opened TargetExpansion

  /** What the legacy table holds: only the inferred rows. */
  function LegacyRelations(lk: Lookups, curated: seq<Row>, useSubRoles: bool): Result<set<Row>> {
    match Accumulate(Legacy, lk, FamplexMembers(lk.famplexRelations, lk.hgncNameToId), curated)
    case Failure(e) => Failure(e)
    case Success(x) => Success(InferredRows(lk, useSubRoles, x, x.Keys))
  }

  /** `get_relations_df(use_sub_roles)`: the rows are those Stage B infers,
      in no promised order and possibly repeated. */
  method GetRelationsDf(lk: Lookups, curated: seq<Row>, useSubRoles: bool) returns (r: Result<seq<Row>>)
    ensures r.Failure? <==> LegacyRelations(lk, curated, useSubRoles).Failure?
    ensures r.Failure? ==> r.error == LegacyRelations(lk, curated, useSubRoles).error
    ensures r.Success? ==> forall row :: row in r.value <==> row in LegacyRelations(lk, curated, useSubRoles).value
  {
    var members := GetFamplex(lk.famplexRelations, lk.hgncNameToId);
    var acc := InferOverTargets(Legacy, lk, members, curated);
    if acc.Failure? {
      return Failure(acc.error);
    }
    var rows := InferOverRoles(lk, useSubRoles, acc.value);
    r := Success(rows);
  }

  /** Where the two generations part: a ChEBI row naming an HGNC gene that
      protmapper does not know is kept (with no proteins) by the current
      code and raises in the legacy code (`KeyError`, or `IndexError` from the
      handler when the table is empty); and the legacy code
      keys roles by the identifier exactly as curated. */
  lemma VariantsDiffer(lk: Lookups, members: map<string, seq<(string, string)>>, row: Row)
    requires row.sourceDb == "chebi" && row.targetDb == "hgnc"
    requires row.targetId !in lk.hgncToUniprot && TargetId(Current, row) !in lk.hgncToUniprot
    ensures TargetEntries(Current, lk, members, row).Success?
    ensures TargetEntries(Legacy, lk, members, row) ==
              if lk.hgncToUniprot == map[] then Failure(IndexError("list index out of range"))
              else Failure(KeyError(row.targetId))
    ensures SourceKey(Legacy, row) == (row.sourceDb, row.sourceId)
  {
    HgncTarget(Current, lk, members, row);
    HgncTarget(Legacy, lk, members, row);
  }

  /** A curated row reaches the legacy table only as an inferred row: with
      no bearers for any role, the table is empty. */
  lemma CuratedRowsNotCarried(lk: Lookups, curated: seq<Row>, useSubRoles: bool)
    requires LegacyRelations(lk, curated, useSubRoles).Success?
    requires forall k: Curie :: Bearers(lk, useSubRoles, k) == {}
    ensures LegacyRelations(lk, curated, useSubRoles).value == {}
  {
  }

  // ---------------------------------------------------------------- write_export

  /** The column order of the full export. */
  function FullKey(r: Row): (k: seq<string>)
    ensures |k| == 8
  {
    [r.modulation, r.targetType, r.sourceDb, r.sourceId, r.sourceName, r.targetDb, r.targetId, r.targetName]
  }

  lemma FullKeyInjective()
    ensures forall x, y :: FullKey(x) == FullKey(y) ==> x == y
  {
    forall x, y | FullKey(x) == FullKey(y) ensures x == y {
      assert FullKey(x)[0] == FullKey(y)[0] && FullKey(x)[1] == FullKey(y)[1];
      assert FullKey(x)[2] == FullKey(y)[2] && FullKey(x)[3] == FullKey(y)[3];
      assert FullKey(x)[4] == FullKey(y)[4] && FullKey(x)[5] == FullKey(y)[5];
      assert FullKey(x)[6] == FullKey(y)[6] && FullKey(x)[7] == FullKey(y)[7];
    }
  }

  /** A row of the slim export. */
  datatype SlimRow = SlimRow(sourceDb: string, sourceId: string, modulation: string, targetDb: string, targetId: string)

  function SlimKey(s: SlimRow): seq<string> {
    [s.sourceDb, s.sourceId, s.modulation, s.targetDb, s.targetId]
  }

  function Slim(r: Row): SlimRow {
    SlimRow(r.sourceDb, r.sourceId, r.modulation, r.targetDb, r.targetId)
  }

  function Project(rows: seq<Row>): (s: seq<SlimRow>)
    ensures |s| == |rows|
    ensures forall i :: 0 <= i < |rows| ==> s[i] == Slim(rows[i])
  {
    seq(|rows|, i requires 0 <= i < |rows| => Slim(rows[i]))
  }

  /** `df.drop_duplicates()` followed by `df[columns].sort_values(columns)`:
      every distinct row once, in strictly increasing order of
      (modulation, target_type, source_db, source_id, source_name,
      target_db, target_id, target_name). */
  function FullTable(rows: seq<Row>): (t: seq<Row>)
    ensures StrictlySortedBy(t, FullKey)
    ensures forall x :: x in t <==> x in rows
  {
    FullKeyInjective();
    DedupThenSort(rows, FullKey)
  }

  /** `df[slim_columns].sort_values(slim_columns)` on the de-duplicated full
      table: one slim row per distinct full row, sorted by (source_db,
      source_id, modulation, target_db, target_id), duplicates kept. */
  function SlimTable(rows: seq<Row>): (t: seq<SlimRow>)
    ensures SortedBy(t, SlimKey)
    ensures multiset(t) == multiset(Project(DropDuplicates(rows)))
    ensures |t| == |DropDuplicates(rows)|
  {
    var t := SortBy(Project(DropDuplicates(rows)), SlimKey);
    assert |multiset(t)| == |t| && |multiset(Project(DropDuplicates(rows)))| == |Project(DropDuplicates(rows))|;
    t
  }

  /** Two full rows that differ only in a name give the same slim row
      twice: the slim table is not de-duplicated after projection. */
  lemma SlimTableKeepsRepeats(a: Row)
    ensures var b := a.(sourceName := a.sourceName + "'");
            var t := SlimTable([a, b]);
            |t| == 2 && t[0] == t[1] == Slim(a)
  {
    var b := a.(sourceName := a.sourceName + "'");
    assert a != b by { assert |b.sourceName| != |a.sourceName|; }
    assert DropDuplicates([a, b]) == [a, b] by {
      assert [a, b][..1] == [a];
      assert b !in [a];
    }
    var t := SlimTable([a, b]);
    assert Project([a, b]) == [Slim(a), Slim(a)];
    assert multiset(t) == multiset{Slim(a), Slim(a)};
    assert t[0] in multiset(t) && t[1] in multiset(t);
  }

  // ---------------------------------------------------------------- BEL

  /** The BEL functions `_type_map` picks from. */
  datatype BelFunction = BiologicalProcess | Abundance | Population | Pathology | Protein | NamedComplexAbundance

  /** The `BELGraph` adders `_adders` picks from. */
  datatype BelRelation = Activates | Inhibits | Regulates

  datatype BelNode = BelNode(kind: BelFunction, namespace: string, identifier: string, name: string)

  datatype BelEdge = BelEdge(source: BelNode, relation: BelRelation, target: BelNode)

  /** `_type_map`. */
  function TypeMap(targetType: string): Option<BelFunction> {
    match targetType
    case "biological process" => Some(BiologicalProcess)
    case "chemical" => Some(Abundance)
    case "organism" => Some(Population)
    case "phenotype" => Some(Pathology)
    case "protein" => Some(Protein)
    case "protein family" => Some(Protein)
    case "protein complex" => Some(NamedComplexAbundance)
    case _ => None
  }

  /** `_adders`. */
  function Adders(modulation: string): Option<BelRelation> {
    match modulation
    case "activator" => Some(Activates)
    case "agonist" => Some(Activates)
    case "antagonist" => Some(Inhibits)
    case "inhibitor" => Some(Inhibits)
    case "inverse agonist" => Some(Activates)
    case "modulator" => Some(Regulates)
    case _ => None
  }

  /** Which modulations activate, inhibit or regulate, and that nothing else
      has an adder. */
  lemma AddersTable(modulation: string)
    ensures Adders(modulation) == Some(Activates) <==> modulation in {"activator", "agonist", "inverse agonist"}
    ensures Adders(modulation) == Some(Inhibits) <==> modulation in {"antagonist", "inhibitor"}
    ensures Adders(modulation) == Some(Regulates) <==> modulation == "modulator"
    ensures Adders(modulation).None? <==>
              modulation !in {"activator", "agonist", "inverse agonist", "antagonist", "inhibitor", "modulator"}
  {
  }

  /** Both protein types become BEL proteins, and types outside the table
      have no BEL function. */
  lemma TypeMapTable(targetType: string)
    ensures TypeMap(targetType) == Some(Protein) <==> targetType in {"protein", "protein family"}
    ensures TypeMap(targetType).None? <==>
              targetType !in {"biological process", "chemical", "organism", "phenotype", "protein", "protein family", "protein complex"}
  {
  }

  predicate Skipped(row: Row) {
    row.targetType == "molecular function"
  }

  predicate Mappable(row: Row) {
    TypeMap(row.targetType).Some? && Adders(row.modulation).Some?
  }

  /** The statement one mappable row becomes. */
  function EdgeOf(row: Row): BelEdge
    requires Mappable(row)
  {
    BelEdge(
      BelNode(Abundance, row.sourceDb, row.sourceId, row.sourceName),
      Adders(row.modulation).value,
      BelNode(TypeMap(row.targetType).value, row.targetDb, row.targetId, row.targetName))
  }

  /** The statements of `write_bel_export`, in row order, or the `KeyError`
      of the first row whose target type, then modulation, has no entry. */
  function BelEdges(rows: seq<Row>): (r: Result<seq<BelEdge>>)
    ensures r.Success? <==> forall row :: row in rows && !Skipped(row) ==> Mappable(row)
    ensures r.Success? ==> forall row :: row in rows && !Skipped(row) ==> EdgeOf(row) in r.value
    ensures r.Success? ==> forall e :: e in r.value ==>
              exists row :: row in rows && !Skipped(row) && Mappable(row) && e == EdgeOf(row)
    ensures r.Failure? ==> r.error.KeyError?
  {
    if rows == [] then Success([])
    else
      var pre := rows[..|rows| - 1];
      var row := rows[|rows| - 1];
      assert forall x :: x in rows <==> x in pre || x == row by { assert rows == pre + [row]; }
      match BelEdges(pre)
      case Failure(e) => Failure(e)
      case Success(edges) =>
        if Skipped(row) then Success(edges)
        else if TypeMap(row.targetType).None? then Failure(KeyError(row.targetType))
        else if Adders(row.modulation).None? then Failure(KeyError(row.modulation))
        else Success(edges + [EdgeOf(row)])
  }

  /** `write_bel_export`'s loop adding one statement per row. */
  method WriteBelExport(rows: seq<Row>) returns (r: Result<seq<BelEdge>>)
    ensures r == BelEdges(rows)
  {
    var edges: seq<BelEdge> := [];
    for i := 0 to |rows|
      invariant BelEdges(rows[..i]) == Success(edges)
    {
      var row := rows[i];
      BelPrefix(rows, i);
      if row.targetType == "molecular function" {
        continue;
      }
      var kind := TypeMap(row.targetType);
      if kind.None? {
        BelFailureSticks(rows, i + 1);
        return Failure(KeyError(row.targetType));
      }
      var adder := Adders(row.modulation);
      if adder.None? {
        BelFailureSticks(rows, i + 1);
        return Failure(KeyError(row.modulation));
      }
      edges := edges + [EdgeOf(row)];
    }
    assert rows[..|rows|] == rows;
    r := Success(edges);
  }

  /** One more row: the prefix's outcome extended by that row's step. */
  lemma BelPrefix(rows: seq<Row>, i: nat)
    requires i < |rows|
    ensures BelEdges(rows[..i + 1]) ==
              match BelEdges(rows[..i])
              case Failure(e) => Failure(e)
              case Success(edges) =>
                if Skipped(rows[i]) then Success(edges)
                else if TypeMap(rows[i].targetType).None? then Failure(KeyError(rows[i].targetType))
                else if Adders(rows[i].modulation).None? then Failure(KeyError(rows[i].modulation))
                else Success(edges + [EdgeOf(rows[i])])
  {
    assert rows[..i + 1][..i] == rows[..i] && rows[..i + 1][i] == rows[i];
  }

  lemma {:induction false} BelFailureSticks(rows: seq<Row>, n: nat)
    requires 0 < n <= |rows|
    requires BelEdges(rows[..n]).Failure?
    ensures BelEdges(rows) == BelEdges(rows[..n])
    decreases |rows| - n
  {
    if n < |rows| {
      assert rows[..n + 1][..n] == rows[..n];
      BelFailureSticks(rows, n + 1);
    } else {
      assert rows[..n] == rows;
    }
  }
}

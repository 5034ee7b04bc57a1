/** `get_relations_df` of `src/chemical_roles/export/utils.py`: the curated
    relation table, optionally followed by every relation inferred from it,
    sorted on all eight columns with exact duplicates dropped. */
module ExportUtils {

  import opened Wrappers
  import opened Order
  import opened Rows
  import opened TargetExpansion

  /** What the table holds: the curated rows and the rows Stage B infers
      from the roles Stage A collected, or the exception Stage A raised. */
  function Relations(lk: Lookups, curated: seq<Row>, useSubRoles: bool): Result<set<Row>> {
    match Accumulate(Current, lk, FamplexMembers(lk.famplexRelations, lk.hgncNameToId), curated)
    case Failure(e) => Failure(e)
    case Success(x) => Success((set r | r in curated) + InferredRows(lk, useSubRoles, x, x.Keys))
  }

  /** `get_relations_df(use_sub_roles, use_inferred)`. */
  method GetRelationsDf(lk: Lookups, curated: seq<Row>, useSubRoles: bool, useInferred: bool)
    returns (r: Result<seq<Row>>)
    ensures !useInferred ==> r == Success(curated)
    ensures useInferred ==> (r.Failure? <==> Relations(lk, curated, useSubRoles).Failure?)
    ensures useInferred && r.Failure? ==> r.error == Relations(lk, curated, useSubRoles).error
    ensures useInferred && r.Success? ==> StrictlySortedBy(r.value, Cols)
    ensures useInferred && r.Success? ==>
              forall row :: row in r.value <==> row in Relations(lk, curated, useSubRoles).value
  {
    if !useInferred {
      return Success(curated);
    }
    var members := GetFamplex(lk.famplexRelations, lk.hgncNameToId);
    var acc := InferOverTargets(Current, lk, members, curated);
    if acc.Failure? {
      return Failure(acc.error);
    }
    var inferred := InferOverRoles(lk, useSubRoles, acc.value);
    var rows := curated + inferred;
    r := Success(SortAndDedup(rows));
  }

  /** Every curated row survives inference, whatever its source namespace;
      only ChEBI-sourced rows feed the inference itself. */
  lemma CuratedRowsKept(lk: Lookups, curated: seq<Row>, useSubRoles: bool, row: Row)
    requires Relations(lk, curated, useSubRoles).Success?
    requires row in curated
    ensures row in Relations(lk, curated, useSubRoles).value
    ensures row.sourceDb != "chebi" ==>
              TargetEntries(Current, lk, FamplexMembers(lk.famplexRelations, lk.hgncNameToId), row) == Success(None)
  {
  }

  /** The inferred table depends only on which rows it holds: two sorted,
      duplicate-free tables with the same rows are the same table, so the
      order in which the sets of bearers are walked does not show. */
  lemma OutputDeterminedByRows(a: seq<Row>, b: seq<Row>)
    requires StrictlySortedBy(a, Cols) && StrictlySortedBy(b, Cols)
    requires forall row :: row in a <==> row in b
    ensures a == b
  {
    StrictlySortedUnique(a, b, Cols);
  }

  /** An inferred row is the entry of some curated ChEBI row, moved onto a
      chemical bearing the row's role. */
  lemma InferredRowOrigin(lk: Lookups, curated: seq<Row>, useSubRoles: bool, row: Row)
    requires Accumulate(Current, lk, FamplexMembers(lk.famplexRelations, lk.hgncNameToId), curated).Success?
    requires var x := Accumulate(Current, lk, FamplexMembers(lk.famplexRelations, lk.hgncNameToId), curated).value;
             row in InferredRows(lk, useSubRoles, x, x.Keys)
    ensures exists i, k: Curie :: 0 <= i < |curated| && curated[i].sourceDb == "chebi" && k.0 == "chebi"
              && Contributes(Current, lk, FamplexMembers(lk.famplexRelations, lk.hgncNameToId), curated[i], k, EntryOf(row))
              && (row.sourceDb, row.sourceId) in Bearers(lk, useSubRoles, k)
  {
    var members := FamplexMembers(lk.famplexRelations, lk.hgncNameToId);
    var x := Accumulate(Current, lk, members, curated).value;
    var k, e, c :| k in x.Keys && k in x && e in x[k] && c in Bearers(lk, useSubRoles, k)
                   && row == WithSource(c, lk.nameOf(c), e);
    AccumulateKeys(Current, lk, members, curated);
    AccumulateEntries(Current, lk, members, curated, k, e);
    var i :| 0 <= i < |curated| && Contributes(Current, lk, members, curated[i], k, e);
    assert EntryOf(row) == e;
  }
}

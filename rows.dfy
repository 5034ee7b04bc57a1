/** The record every part of the system passes around: one line of the
    curated relation table `xrefs.tsv`, with its eight columns
    `source_db, source_id, source_name, modulation, target_type, target_db,
    target_id, target_name`. */
module Rows {

  import opened Order

  datatype Row = Row(
    sourceDb: string, sourceId: string, sourceName: string,
    modulation: string,
    targetType: string, targetDb: string, targetId: string, targetName: string)

  /** The five target-side columns that inference copies verbatim from a
      role onto the chemicals bearing it. */
  datatype Entry = Entry(
    modulation: string, targetType: string, targetDb: string, targetId: string, targetName: string)

  /** A compact identifier split into its namespace and local identifier. */
  type Curie = (string, string)

  /** The row's columns in table order, which is also the sort order of
      `sort_values(XREFS_COLUMNS)`. */
  function Cols(r: Row): (c: seq<string>)
    ensures |c| == 8
  {
    [r.sourceDb, r.sourceId, r.sourceName, r.modulation,
     r.targetType, r.targetDb, r.targetId, r.targetName]
  }

  lemma ColsInjective()
    ensures forall x, y :: Cols(x) == Cols(y) ==> x == y
  {
    forall x, y | Cols(x) == Cols(y) ensures x == y {
      assert Cols(x)[0] == Cols(y)[0] && Cols(x)[1] == Cols(y)[1];
      assert Cols(x)[2] == Cols(y)[2] && Cols(x)[3] == Cols(y)[3];
      assert Cols(x)[4] == Cols(y)[4] && Cols(x)[5] == Cols(y)[5];
      assert Cols(x)[6] == Cols(y)[6] && Cols(x)[7] == Cols(y)[7];
    }
  }

  /** A row whose source is `chemical` and whose target side is `e`. */
  function WithSource(chemical: Curie, name: string, e: Entry): Row {
    Row(chemical.0, chemical.1, name, e.modulation, e.targetType, e.targetDb, e.targetId, e.targetName)
  }

  function EntryOf(r: Row): Entry {
    Entry(r.modulation, r.targetType, r.targetDb, r.targetId, r.targetName)
  }

  /** `df.sort_values(XREFS_COLUMNS).drop_duplicates()`: the distinct rows in
      increasing order of all eight columns. */
  function SortAndDedup(rows: seq<Row>): (r: seq<Row>)
    ensures StrictlySortedBy(r, Cols)
    ensures forall x :: x in r <==> x in rows
  {
    ColsInjective();
    SortedUnique(rows, Cols)
  }
}

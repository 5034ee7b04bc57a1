/** The curation helpers of `src/chemical_roles/utils.py` (duplicated in the
    top-level `utils.py`): the role-name suffixes, the rows written for the
    results of a grounding request, the single-mapping report, the sort of
    the curated table, and the comment rule of the table reader. */
module CurationUtils {

  import opened Wrappers
  import opened Text
  import opened Order
  import opened Rows

  // ---------------------------------------------------------------- SUFFIXES

  /** The nine role-name endings, in their declared order. */
  const BaseSuffixes: seq<string> := [
    "inhibitor", "deactivator", "activator", "antagonist", "agonist",
    "modulator", "suppressor", "drug", "agent"
  ]

  /** Each ending with an `s` added, in the same order. */
  function Plurals(base: seq<string>): (r: seq<string>)
    ensures |r| == |base|
    ensures forall i :: 0 <= i < |base| ==> r[i] == base[i] + "s"
  {
    seq(|base|, i requires 0 <= i < |base| => base[i] + "s")
  }

  /** `SUFFIXES` after the module-level `extend`. */
  function Suffixes(): seq<string> {
    BaseSuffixes + Plurals(BaseSuffixes)
  }

  /** Eighteen entries: the nine singular endings in declared order, then
      their plurals in the same order; so no singular form ends in `s`, every
      plural does, and every singular comes before every plural. */
  lemma SuffixesShape()
    ensures |Suffixes()| == 18
    ensures Suffixes()[..9] == BaseSuffixes
    ensures forall i :: 0 <= i < 9 ==> Suffixes()[i + 9] == Suffixes()[i] + "s"
    ensures forall i, j :: 0 <= i < 9 <= j < 18 ==> !EndsWith(Suffixes()[i], "s") && EndsWith(Suffixes()[j], "s")
  {
    assert Suffixes()[..9] == BaseSuffixes;
    forall i | 0 <= i < 9 ensures !EndsWith(Suffixes()[i], "s") {
      var w := BaseSuffixes[i];
      assert w[|w| - 1] != 's';
    }
  }

  // ---------------------------------------------------------------- yield_gilda

  /** The `term` of one grounding result. */
  datatype GildaTerm = GildaTerm(db: string, id: string, entryName: string)

  lemma LowerIdempotent(s: string)
    ensures Lower(Lower(s)) == Lower(s)
  {
  }

  /** The result's namespace, lower-cased, and its identifier with one
      leading `db:` removed, the prefix matched case-insensitively. */
  function NormalizeTerm(t: GildaTerm): (r: (string, string))
    ensures r.0 == Lower(t.db)
    ensures StartsWith(Lower(t.id), Lower(t.db) + ":") ==>
              |t.db| + 1 <= |t.id| && t.id == t.id[..|t.db| + 1] + r.1
    ensures !StartsWith(Lower(t.id), Lower(t.db) + ":") ==> r.1 == t.id
  {
    var db := Lower(t.db);
    if StartsWith(Lower(t.id), db + ":") then
      assert t.id == t.id[..|db| + 1] + t.id[|db| + 1..];
      (db, t.id[|db| + 1..])
    else (db, t.id)
  }

  /** `suffix or '?'`. */
  function Label(suffix: string): string {
    if suffix == "" then "?" else suffix
  }

  function HitRow(sourceDb: string, identifier: string, name: string, suffix: string, t: GildaTerm): Row {
    var (db, id) := NormalizeTerm(t);
    Row(sourceDb, identifier, name, Label(suffix), "?", db, id, t.entryName)
  }

  /** The worksheet row written when grounding finds nothing. */
  function Placeholder(sourceDb: string, identifier: string, name: string, suffix: string): Row {
    Row(sourceDb, identifier, name, Label(suffix), "?", "?", "?", "?")
  }

  /** `row` is one that `yield_gilda` writes for the grounding `results`:
      the row of a result that is not the entity itself, or the placeholder
      of an ungrounded entity when missing entities are shown. */
  ghost predicate GildaRow(sourceDb: string, identifier: string, name: string, suffix: string,
                           results: seq<GildaTerm>, showMissing: bool, row: Row) {
    || (exists t :: t in results && !IsSelf(sourceDb, identifier, t) && row == HitRow(sourceDb, identifier, name, suffix, t))
    || (results == [] && showMissing && row == Placeholder(sourceDb, identifier, name, suffix))
  }

  /** A hit is suppressed when it grounds back to the queried entity itself. */
  predicate IsSelf(sourceDb: string, identifier: string, t: GildaTerm) {
    NormalizeTerm(t) == (sourceDb, identifier)
  }

  function Hits(sourceDb: string, identifier: string, name: string, suffix: string, results: seq<GildaTerm>): (r: seq<Row>)
    ensures |r| <= |results|
    ensures forall t :: t in results && !IsSelf(sourceDb, identifier, t) ==> HitRow(sourceDb, identifier, name, suffix, t) in r
    ensures forall row :: row in r ==>
              exists t :: (t in results && !IsSelf(sourceDb, identifier, t) && row == HitRow(sourceDb, identifier, name, suffix, t))
  {
    if results == [] then []
    else
      var rest := Hits(sourceDb, identifier, name, suffix, results[1..]);
      assert forall t :: t in results <==> t == results[0] || t in results[1..];
      if IsSelf(sourceDb, identifier, results[0]) then rest
      else [HitRow(sourceDb, identifier, name, suffix, results[0])] + rest
  }

  /** `yield_gilda`: for the grounding `results` of the search text, one row
      per result that is not the queried entity itself, or the placeholder
      row when there are no results and `showMissing` is set. */
  function YieldGilda(sourceDb: string, identifier: string, name: string, suffix: string,
                      results: seq<GildaTerm>, showMissing: bool): (r: seq<Row>)
    ensures results == [] ==> r == (if showMissing then [Placeholder(sourceDb, identifier, name, suffix)] else [])
    ensures results != [] ==> |r| <= |results|
    ensures results != [] ==> forall row :: row in r ==>
              && row.sourceDb == sourceDb && row.sourceId == identifier && row.sourceName == name
              && row.modulation == Label(suffix) && row.targetType == "?"
              && Lower(row.targetDb) == row.targetDb
              && !(row.targetDb == sourceDb && row.targetId == identifier)
    ensures results != [] ==> forall t :: t in results && !IsSelf(sourceDb, identifier, t) ==>
              HitRow(sourceDb, identifier, name, suffix, t) in r
    ensures results != [] ==> forall row :: row in r ==>
              exists t :: t in results && !IsSelf(sourceDb, identifier, t) && row == HitRow(sourceDb, identifier, name, suffix, t)
  {
    if results == [] then
      if showMissing then [Placeholder(sourceDb, identifier, name, suffix)] else []
    else
      var r := Hits(sourceDb, identifier, name, suffix, results);
      forall row | row in r ensures Lower(row.targetDb) == row.targetDb {
        var t :| t in results && row == HitRow(sourceDb, identifier, name, suffix, t);
        LowerIdempotent(t.db);
      }
      r
  }

  /** Every row written for an entity, hit or placeholder, names the
      entity and carries its label. */
  lemma YieldGildaSource(sourceDb: string, identifier: string, name: string, suffix: string,
                         results: seq<GildaTerm>, showMissing: bool, row: Row)
    requires row in YieldGilda(sourceDb, identifier, name, suffix, results, showMissing)
    ensures row.sourceDb == sourceDb && row.sourceId == identifier && row.sourceName == name
    ensures row.modulation == Label(suffix)
  {
  }

  // ---------------------------------------------------------------- get_single_mappings

  type Triple = (string, string, string)

  function TargetTriple(r: Row): Triple {
    (r.targetDb, r.targetId, r.targetName)
  }

  /** How many rows of the table have source id `id`. */
  function CountSource(rows: seq<Row>, id: string): (n: nat)
    ensures n <= |rows|
  {
    if rows == [] then 0
    else CountSource(rows[..|rows| - 1], id) + (if rows[|rows| - 1].sourceId == id then 1 else 0)
  }

  lemma {:induction false} CountSourcePositive(rows: seq<Row>, id: string, j: int)
    requires 0 <= j < |rows| && rows[j].sourceId == id
    ensures CountSource(rows, id) >= 1
    ensures CountSource(rows, id) == 1 ==> forall k :: 0 <= k < |rows| && rows[k].sourceId == id ==> k == j
  {
    var pre := rows[..|rows| - 1];
    if j < |rows| - 1 {
      CountSourcePositive(pre, id, j);
      forall k | 0 <= k < |rows| - 1 && rows[k].sourceId == id && CountSource(rows, id) == 1
        ensures k == j
      {
        assert pre[k] == rows[k];
      }
    } else {
      forall k | 0 <= k < |rows| - 1 && rows[k].sourceId == id && CountSource(rows, id) == 1
        ensures false
      {
        assert pre[k] == rows[k];
        CountSourcePositive(pre, id, k);
      }
    }
  }

  /** Source `id` has exactly one row in the whole table, and that row's
      target is `key`. */
  predicate SingleMapping(rows: seq<Row>, id: string, key: Triple) {
    CountSource(rows, id) == 1 && exists j :: 0 <= j < |rows| && rows[j].sourceId == id && TargetTriple(rows[j]) == key
  }

  /** The source ids of the rows the mask selects. */
  function SliceIds(rows: seq<Row>, mask: seq<bool>): set<string>
    requires |mask| == |rows|
  {
    set i | 0 <= i < |rows| && mask[i] :: rows[i].sourceId
  }

  function SetGet<K, V>(m: map<K, set<V>>, k: K): set<V> {
    if k in m then m[k] else {}
  }

  /** How often `id` occurs as a source id, and where it last occurs. */
  method Occurrences(rows: seq<Row>, id: string) returns (n: nat, last: int)
    ensures n == CountSource(rows, id)
    ensures n >= 1 ==> 0 <= last < |rows| && rows[last].sourceId == id
  {
    n, last := 0, -1;
    for i := 0 to |rows|
      invariant n == CountSource(rows[..i], id)
      invariant n >= 1 ==> 0 <= last < i && rows[last].sourceId == id
    {
      assert rows[..i + 1][..i] == rows[..i];
      if rows[i].sourceId == id {
        n, last := n + 1, i;
      }
    }
    assert rows[..|rows|] == rows;
  }

  /** `get_single_mappings(df, idx)`: the sources in the slice that have
      exactly one row in the whole table, grouped into sets by that row's
      (target_db, target_id, target_name). */
  method GetSingleMappings(rows: seq<Row>, mask: seq<bool>) returns (errors: map<Triple, set<string>>)
    requires |mask| == |rows|
    ensures forall key, id :: id in SetGet(errors, key) <==>
              id in SliceIds(rows, mask) && SingleMapping(rows, id, key)
    ensures forall key :: key in errors ==> errors[key] != {}
  {
    var ids := SliceIds(rows, mask);
    errors := map[];
    var todo := ids;
    while todo != {}
      invariant todo <= ids
      invariant forall key, id :: id in SetGet(errors, key) <==> id in ids - todo && SingleMapping(rows, id, key)
      invariant forall key :: key in errors ==> errors[key] != {}
    {
      var id :| id in todo;
      var n, j := Occurrences(rows, id);
      ghost var old_errors := errors;
      if n == 1 {
        var key := TargetTriple(rows[j]);
        CountSourcePositive(rows, id, j);
        errors := errors[key := SetGet(errors, key) + {id}];
        forall key', id'
          ensures id' in SetGet(errors, key') <==> id' in ids - (todo - {id}) && SingleMapping(rows, id', key')
        {
          assert id' in SetGet(old_errors, key') <==> id' in ids - todo && SingleMapping(rows, id', key');
          if id' == id {
            assert SingleMapping(rows, id, key);
            if SingleMapping(rows, id', key') {
              var j' :| 0 <= j' < |rows| && rows[j'].sourceId == id && TargetTriple(rows[j']) == key';
              assert j' == j;
            }
          } else {
            assert id' in SetGet(errors, key') <==> id' in SetGet(old_errors, key');
          }
        }
      } else {
        forall key', id'
          ensures id' in SetGet(errors, key') <==> id' in ids - (todo - {id}) && SingleMapping(rows, id', key')
        {
          assert id' in SetGet(old_errors, key') <==> id' in ids - todo && SingleMapping(rows, id', key');
          if id' == id {
            assert !SingleMapping(rows, id', key');
          }
        }
      }
      todo := todo - {id};
    }
    assert ids - todo == ids;
  }

  // ---------------------------------------------------------------- sort_xrefs_df

  function XrefsSortKey(r: Row): seq<string> {
    [r.sourceDb, r.sourceName, r.modulation]
  }

  /** `sort_xrefs_df`: sorted by (source_db, source_name, modulation), then
      exact duplicates dropped, first copy kept. */
  function SortXrefs(rows: seq<Row>): (r: seq<Row>)
    ensures SortedBy(r, XrefsSortKey)
    ensures Distinct(r)
    ensures forall x :: x in r <==> x in rows
  {
    var s := SortBy(rows, XrefsSortKey);
    assert forall x :: x in s <==> x in multiset(s);
    DropDuplicatesKeepsSorted(s, XrefsSortKey);
    DropDuplicates(s)
  }

  // ---------------------------------------------------------------- get_xrefs_df

  /** A line with everything from its first `#` on removed. */
  function Uncommented(line: string): (r: string)
    ensures '#' !in r
    ensures |r| <= |line| && r == line[..|r|]
    ensures |r| < |line| ==> line[|r|] == '#'
  {
    if line == [] then []
    else if line[0] == '#' then []
    else [line[0]] + Uncommented(line[1..])
  }

  /** The strings `read_csv` reads as missing (`NaN`) by default, even with
      `dtype=str`: pandas' `STR_NA_VALUES` (pandas 2), the empty field
      among them. */
  const NaStrings: set<string> := {"", "#N/A", "#N/A N/A", "#NA", "-1.#IND", "-1.#QNAN", "-NaN", "-nan",
                                   "1.#IND", "1.#QNAN", "<NA>", "N/A", "NA", "NULL", "NaN", "None",
                                   "n/a", "nan", "null"}

  /** One data line's cells under a header of `width` columns: a field that
      is one of the NA strings is missing, every other field is kept as it
      is, and a short line is padded with missing cells. */
  function Cells(fields: seq<string>, width: nat): (r: seq<Option<string>>)
    requires |fields| <= width
    ensures |r| == width
    ensures forall k :: 0 <= k < width ==> (r[k] == None <==> k >= |fields| || fields[k] in NaStrings)
    ensures forall k :: 0 <= k < |fields| && fields[k] !in NaStrings ==> r[k] == Some(fields[k])
  {
    seq(width, k requires 0 <= k < width => if k < |fields| && fields[k] !in NaStrings then Some(fields[k]) else None)
  }

  /** The values of the present entries, in order. */
  function Somes<T(!new)>(xs: seq<Option<T>>): (r: seq<T>)
    ensures |r| <= |xs|
    ensures forall x :: x in r <==> Some(x) in xs
  {
    if xs == [] then []
    else
      assert forall o :: o in xs <==> o == xs[0] || o in xs[1..];
      match xs[0]
      case None => Somes(xs[1..])
      case Some(x) => [x] + Somes(xs[1..])
  }

  /** A data line with more fields than the header has columns. */
  predicate TooWide(width: nat, line: string) {
    Uncommented(line) != [] && |SplitOn(Uncommented(line), "\t")| > width
  }

  /** The record a data line gives: none for a blank line (once the
      comment is cut) or a line wider than the header. */
  function RecordOf(width: nat, line: string): Option<seq<Option<string>>> {
    var u := Uncommented(line);
    if u == [] || |SplitOn(u, "\t")| > width then None else Some(Cells(SplitOn(u, "\t"), width))
  }

  /** The record each line gives, line by line. */
  function LineRecords(width: nat, lines: seq<string>): (r: seq<Option<seq<Option<string>>>>)
    ensures |r| == |lines| && forall i :: 0 <= i < |lines| ==> r[i] == RecordOf(width, lines[i])
  {
    seq(|lines|, i requires 0 <= i < |lines| => RecordOf(width, lines[i]))
  }

  lemma LineRecordsCons(width: nat, lines: seq<string>)
    requires lines != []
    ensures LineRecords(width, lines) == [RecordOf(width, lines[0])] + LineRecords(width, lines[1..])
  {
    assert LineRecords(width, lines)[1..] == LineRecords(width, lines[1..]);
  }

  /** The data lines that follow the header: blank lines (once the comment
      is cut) are skipped, and a line with more fields than the header
      raises `ParserError`. */
  function DataRecords(width: nat, lines: seq<string>): (r: Result<seq<seq<Option<string>>>>)
    ensures r.Failure? <==> exists i :: 0 <= i < |lines| && TooWide(width, lines[i])
    ensures r.Failure? ==> r.error.ParserError?
    ensures r.Success? ==> |r.value| <= |lines| && forall rec :: rec in r.value ==> |rec| == width
    ensures r.Success? ==> forall rec :: rec in r.value <==>
              exists i :: 0 <= i < |lines| && RecordOf(width, lines[i]) == Some(rec)
    ensures r.Success? ==> r.value == Somes(LineRecords(width, lines))
  {
    if lines == [] then Success([])
    else
      var rest := DataRecords(width, lines[1..]);
      assert forall i :: 1 <= i < |lines| ==> lines[i] == lines[1..][i - 1];
      LineRecordsCons(width, lines);
      if TooWide(width, lines[0]) then Failure(ParserError("Error tokenizing data"))
      else match rest
        case Failure(e) => Failure(e)
        case Success(recs) =>
          match RecordOf(width, lines[0])
          case None => Success(recs)
          case Some(rec) => Success([rec] + recs)
  }

  /** A table as `read_csv` returns it: its column names and its records. */
  datatype XrefsTable = XrefsTable(columns: seq<string>, records: seq<seq<Option<string>>>)

  /** `read_csv(sep='\t', comment='#', dtype=str)` on the table's lines:
      the first line that is not blank once its comment is cut gives the
      column names; the later non-blank lines give the records, their cells
      kept as strings. A table with no such line raises `EmptyDataError`. */
  function ReadXrefs(lines: seq<string>): (r: Result<XrefsTable>)
    ensures r.Failure? ==> r.error.EmptyDataError? || r.error.ParserError?
    ensures r.Success? ==> r.value.columns != [] && forall rec :: rec in r.value.records ==> |rec| == |r.value.columns|
    ensures r.Success? ==> exists i :: 0 <= i < |lines| && r.value.columns == SplitOn(Uncommented(lines[i]), "\t")
  {
    if lines == [] then Failure(EmptyDataError("No columns to parse from file"))
    else if Uncommented(lines[0]) == [] then ReadXrefs(lines[1..])
    else
      var columns := SplitOn(Uncommented(lines[0]), "\t");
      match DataRecords(|columns|, lines[1..])
      case Failure(e) => Failure(e)
      case Success(records) => Success(XrefsTable(columns, records))
  }

  /** `h` is the header line: the first line that is not blank once its
      comment is cut. */
  ghost predicate HeaderAt(lines: seq<string>, h: int) {
    && 0 <= h < |lines| && Uncommented(lines[h]) != []
    && forall j :: 0 <= j < h ==> Uncommented(lines[j]) == []
  }

  /** The header line names the columns and is not itself a record; the
      records are the data lines after it; the reader raises
      `EmptyDataError` exactly when every line is blank, and otherwise
      only the `ParserError` of a data line wider than the header. */
  lemma {:induction false} XrefsRecordsSpec(lines: seq<string>)
    ensures var r := ReadXrefs(lines);
            && (r.Failure? && r.error.EmptyDataError? <==> forall i :: 0 <= i < |lines| ==> Uncommented(lines[i]) == [])
            && (r.Failure? ==> r.error.EmptyDataError? || r.error.ParserError?)
            && (r.Success? || r.error.ParserError? ==>
                  exists h :: HeaderAt(lines, h)
                    && var columns := SplitOn(Uncommented(lines[h]), "\t");
                       DataRecords(|columns|, lines[h + 1..]) == (if r.Success? then Success(r.value.records) else Failure(r.error))
                       && (r.Success? ==> r.value.columns == columns
                                          && r.value.records == Somes(LineRecords(|columns|, lines[h + 1..]))))
  {
    if lines != [] {
      var tail := lines[1..];
      if Uncommented(lines[0]) == [] {
        XrefsRecordsSpec(tail);
        assert forall i :: 1 <= i < |lines| ==> lines[i] == tail[i - 1];
        var r := ReadXrefs(lines);
        if r.Success? || r.error.ParserError? {
          var h :| HeaderAt(tail, h)
                   && var columns := SplitOn(Uncommented(tail[h]), "\t");
                      DataRecords(|columns|, tail[h + 1..]) == (if r.Success? then Success(r.value.records) else Failure(r.error))
                      && (r.Success? ==> r.value.columns == columns);
          assert lines[h + 1] == tail[h] && lines[h + 2..] == tail[h + 1..];
          assert HeaderAt(lines, h + 1);
        }
      } else {
        assert HeaderAt(lines, 0);
        assert lines[1..] == lines[0 + 1..];
      }
    }
  }

  /** A comment line before the header is skipped. */
  lemma CommentLineSkipped(line: string, rest: seq<string>)
    requires line != [] && line[0] == '#'
    ensures ReadXrefs([line] + rest) == ReadXrefs(rest)
  {
    assert ([line] + rest)[1..] == rest;
  }
}

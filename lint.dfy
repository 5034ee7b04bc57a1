/** The curation linters of `src/chemical_roles/lint.py` and the older
    top-level `lint.py`: the tab-count check of the curated table's lines,
    the report of roles mapped to one target only, the aligned listing of
    that report, and the identifier validation. */
module Lint {

  import opened Wrappers
  import opened Text
  import opened Rows
  import opened CurationUtils

  // ---------------------------------------------------------------- tabs

  /** A line of the curated table passes when, stripped of whitespace at
      both ends, it holds exactly seven tabs (eight columns). */
  predicate LinePasses(line: string) {
    Count(Strip(line), '\t') == 7
  }

  /** Whether each line passes, line by line. */
  function Passes(lines: seq<string>): (r: seq<bool>)
    ensures |r| == |lines|
    ensures forall i {:trigger r[i]} :: 0 <= i < |lines| ==> (r[i] <==> LinePasses(lines[i]))
  {
    seq(|lines|, i requires 0 <= i < |lines| => LinePasses(lines[i]))
  }

  /** The 1-based numbers of the `false` entries of `flags`, in order. */
  function Failing(flags: seq<bool>): (r: seq<nat>)
    ensures forall k :: 0 <= k < |r| ==> 1 <= r[k] <= |flags| && !flags[r[k] - 1]
    ensures forall k, l :: 0 <= k < l < |r| ==> r[k] < r[l]
    ensures forall n :: 1 <= n <= |flags| && !flags[n - 1] ==> n in r
  {
    if flags == [] then []
    else
      var r := Failing(flags[..|flags| - 1]);
      if flags[|flags| - 1] then r else r + [|flags|]
  }

  /** One more flag adds its number when it is `false`. */
  lemma FailingStep(flags: seq<bool>, i: nat)
    requires i < |flags|
    ensures Failing(flags[..i + 1]) == Failing(flags[..i]) + (if flags[i] then [] else [i + 1])
  {
    assert flags[..i + 1][..|flags[..i + 1]| - 1] == flags[..i];
  }

  /** Every number lies in `1..n`. */
  predicate InRange(nums: seq<nat>, n: nat) {
    forall k :: 0 <= k < |nums| ==> 1 <= nums[k] <= n
  }

  lemma FailingInRange(flags: seq<bool>, n: nat)
    requires |flags| <= n
    ensures InRange(Failing(flags), n)
  {
  }

  /** Every line stripped of whitespace at both ends. */
  function Stripped(lines: seq<string>): (r: seq<string>)
    ensures |r| == |lines|
    ensures forall i {:trigger r[i]} :: 0 <= i < |lines| ==> r[i] == Strip(lines[i])
  {
    seq(|lines|, i requires 0 <= i < |lines| => Strip(lines[i]))
  }

  /** The report printed for the line numbers `nums`: each number beside
      its text. */
  function Report(texts: seq<string>, nums: seq<nat>): (r: seq<(nat, string)>)
    requires InRange(nums, |texts|)
    ensures |r| == |nums|
  {
    seq(|nums|, k requires 0 <= k < |nums| => (nums[k], texts[nums[k] - 1]))
  }

  lemma ReportAppend(texts: seq<string>, nums: seq<nat>, n: nat)
    requires InRange(nums, |texts|) && 1 <= n <= |texts|
    ensures InRange(nums + [n], |texts|)
    ensures Report(texts, nums + [n]) == Report(texts, nums) + [(n, texts[n - 1])]
  {
  }

  /** One iteration of the `tabs` loop keeps the report equal to that of
      the lines read so far. */
  lemma ReportStep(texts: seq<string>, flags: seq<bool>, i: nat, reported: seq<(nat, string)>)
    requires i < |texts| == |flags|
    requires InRange(Failing(flags[..i]), |texts|) && reported == Report(texts, Failing(flags[..i]))
    ensures InRange(Failing(flags[..i + 1]), |texts|)
    ensures reported + (if flags[i] then [] else [(i + 1, texts[i])]) == Report(texts, Failing(flags[..i + 1]))
  {
    FailingStep(flags, i);
    FailingInRange(flags[..i + 1], |texts|);
    if !flags[i] {
      ReportAppend(texts, Failing(flags[..i]), i + 1);
    }
  }

  /** `tabs`: the failing lines reported with their numbers and stripped
      text, in file order, then exit status 1 when there was any. */
  method Tabs(lines: seq<string>) returns (reported: seq<(nat, string)>, status: int)
    ensures InRange(Failing(Passes(lines)), |lines|)
    ensures reported == Report(Stripped(lines), Failing(Passes(lines)))
    ensures status == (if reported == [] then 0 else 1)
  {
    ghost var flags := Passes(lines);
    ghost var texts := Stripped(lines);
    reported := [];
    var errors: set<nat> := {};
    FailingInRange(flags[..0], |lines|);
    for i := 0 to |lines|
      invariant InRange(Failing(flags[..i]), |lines|)
      invariant reported == Report(texts, Failing(flags[..i]))
      invariant errors == {} <==> reported == []
    {
      ReportStep(texts, flags, i, reported);
      var line := Strip(lines[i]);
      assert line == texts[i];
      if Count(line, '\t') != 7 {
        reported := reported + [(i + 1, line)];
        errors := errors + {i + 1};
      }
    }
    assert flags[..|lines|] == flags;
    status := if errors != {} then 1 else 0;
  }

  /** Line `n`, counted from 1, exists and fails. */
  predicate LineFails(lines: seq<string>, n: nat) {
    1 <= n <= |lines| && !LinePasses(lines[n - 1])
  }

  /** Every line `tabs` reports fails, and is shown stripped. */
  lemma TabsReportsFailing(lines: seq<string>, reported: seq<(nat, string)>)
    requires InRange(Failing(Passes(lines)), |lines|)
    requires reported == Report(Stripped(lines), Failing(Passes(lines)))
    ensures forall k :: 0 <= k < |reported| ==> LineFails(lines, reported[k].0) && reported[k].1 == Strip(lines[reported[k].0 - 1])
  {
    var flags := Passes(lines);
    var texts := Stripped(lines);
    var b := Failing(flags);
    forall k | 0 <= k < |reported|
      ensures LineFails(lines, reported[k].0) && reported[k].1 == Strip(lines[reported[k].0 - 1])
    {
      assert reported[k] == (b[k], texts[b[k] - 1]);
      assert !flags[b[k] - 1];
    }
  }

  /** `tabs` reports the lines in file order, none twice. */
  lemma TabsReportsInOrder(lines: seq<string>, reported: seq<(nat, string)>)
    requires InRange(Failing(Passes(lines)), |lines|)
    requires reported == Report(Stripped(lines), Failing(Passes(lines)))
    ensures forall k, l :: 0 <= k < l < |reported| ==> reported[k].0 < reported[l].0
  {
    var b := Failing(Passes(lines));
    forall k, l | 0 <= k < l < |reported|
      ensures reported[k].0 < reported[l].0
    {
      assert reported[k].0 == b[k] && reported[l].0 == b[l];
    }
  }

  /** Every failing line is reported. */
  lemma TabsReportsEvery(lines: seq<string>, reported: seq<(nat, string)>)
    requires InRange(Failing(Passes(lines)), |lines|)
    requires reported == Report(Stripped(lines), Failing(Passes(lines)))
    ensures forall n :: LineFails(lines, n) ==> exists k :: 0 <= k < |reported| && reported[k].0 == n
  {
    forall n | LineFails(lines, n)
      ensures exists k :: 0 <= k < |reported| && reported[k].0 == n
    {
      ReportsNumber(Stripped(lines), Passes(lines), reported, n);
    }
  }

  lemma ReportsNumber(texts: seq<string>, flags: seq<bool>, reported: seq<(nat, string)>, n: nat)
    requires |flags| == |texts| && InRange(Failing(flags), |texts|)
    requires reported == Report(texts, Failing(flags))
    requires 1 <= n <= |flags| && !flags[n - 1]
    ensures exists k :: 0 <= k < |reported| && reported[k].0 == n
  {
    var b := Failing(flags);
    assert n in b;
    var k :| 0 <= k < |b| && b[k] == n;
    assert reported[k].0 == n;
  }

  /** Joining fields that hold no tab with tabs gives one tab per gap. */
  lemma {:induction false} CountJoinTabs(fields: seq<string>)
    requires fields != []
    requires forall k :: 0 <= k < |fields| ==> '\t' !in fields[k]
    ensures Count(Join(fields, "\t"), '\t') == |fields| - 1
  {
    if |fields| > 1 {
      CountJoinTabs(fields[1..]);
      CountAppend(fields[0], "\t", '\t');
      CountAppend(fields[0] + "\t", Join(fields[1..], "\t"), '\t');
      assert Count("\t", '\t') == 1;
    }
  }

  /** A joined line begins with its first field and ends with its last. */
  lemma {:induction false} JoinEnds(fields: seq<string>, sep: string)
    requires fields != []
    ensures StartsWith(Join(fields, sep), fields[0])
    ensures EndsWith(Join(fields, sep), fields[|fields| - 1])
  {
    if |fields| > 1 {
      JoinEnds(fields[1..], sep);
      var j := Join(fields, sep);
      var rest := Join(fields[1..], sep);
      assert j == fields[0] + sep + rest;
      assert j[..|fields[0]|] == fields[0];
      assert j[|j| - |fields[|fields| - 1]|..] == rest[|rest| - |fields[|fields| - 1]|..];
    }
  }

  /** An eight-column row whose fields hold no tab, and whose first and
      last characters are not whitespace, passes. */
  lemma EightColumnsPass(fields: seq<string>)
    requires |fields| == 8
    requires forall k :: 0 <= k < 8 ==> '\t' !in fields[k]
    requires fields[0] != [] && !IsSpace(fields[0][0])
    requires fields[7] != [] && !IsSpace(fields[7][|fields[7]| - 1])
    ensures LinePasses(Join(fields, "\t"))
  {
    var line := Join(fields, "\t");
    CountJoinTabs(fields);
    JoinEnds(fields, "\t");
    assert line[0] == fields[0][0];
    assert line[|line| - 1] == fields[7][|fields[7]| - 1];
    assert LStrip(line) == line;
    assert RStrip(line) == line;
  }

  /** Stripping also removes tabs, so a row whose last column is empty
      fails: its trailing tab is stripped off before counting. */
  lemma EmptyLastColumnFails(fields: seq<string>)
    requires |fields| == 8 && fields[7] == []
    requires forall k :: 0 <= k < 8 ==> '\t' !in fields[k]
    ensures !LinePasses(Join(fields, "\t"))
  {
    var line := Join(fields, "\t");
    var head := Join(fields[..7], "\t");
    JoinLast(fields, "\t");
    assert line == head + "\t";
    assert forall k :: 0 <= k < 7 ==> fields[..7][k] == fields[k];
    CountJoinTabs(fields[..7]);
    StripTrailingTab(head);
  }

  /** `Join(fields)` is the join of all but the last field, the separator
      and the last field. */
  lemma {:induction false} JoinLast(fields: seq<string>, sep: string)
    requires |fields| >= 2
    ensures Join(fields, sep) == Join(fields[..|fields| - 1], sep) + sep + fields[|fields| - 1]
  {
    if |fields| > 2 {
      JoinLast(fields[1..], sep);
      assert fields[1..][..|fields| - 2] == fields[..|fields| - 1][1..];
    }
  }

  /** Stripping `s` with a tab appended leaves a piece of `s`, so no more
      tabs than `s` has. */
  lemma StripTrailingTab(s: string)
    ensures Count(Strip(s + "\t"), '\t') <= Count(s, '\t')
  {
    var x := s + "\t";
    var l := LStrip(x);
    if l != [] {
      var k := |x| - |l|;
      assert k <= |s|;
      assert l == s[k..] + "\t";
      assert l[|l| - 1] == '\t';
      assert l[..|l| - 1] == s[k..];
      var r := RStrip(s[k..]);
      assert Strip(x) == r;
      CountPrefix(s[k..], |r|);
      assert s == s[..k] + s[k..];
      CountAppend(s[..k], s[k..], '\t');
    }
  }

  lemma {:induction false} CountPrefix(s: string, n: nat)
    requires n <= |s|
    ensures Count(s[..n], '\t') <= Count(s, '\t')
  {
    assert s == s[..n] + s[n..];
    CountAppend(s[..n], s[n..], '\t');
  }

  // ---------------------------------------------------------------- mappings

  /** The four slices the current linter checks. */
  function ProteinPrMask(rows: seq<Row>): (m: seq<bool>)
    ensures |m| == |rows|
    ensures forall i :: 0 <= i < |rows| ==> (m[i] <==> rows[i].targetDb == "pr" && rows[i].targetType == "protein")
  {
    seq(|rows|, i requires 0 <= i < |rows| => rows[i].targetDb == "pr" && rows[i].targetType == "protein")
  }

  function GoComplexMask(rows: seq<Row>): (m: seq<bool>)
    ensures |m| == |rows|
    ensures forall i :: 0 <= i < |rows| ==> (m[i] <==> rows[i].targetDb == "go" && rows[i].targetType == "protein complex")
  {
    seq(|rows|, i requires 0 <= i < |rows| => rows[i].targetDb == "go" && rows[i].targetType == "protein complex")
  }

  function MeshMask(rows: seq<Row>): (m: seq<bool>)
    ensures |m| == |rows|
    ensures forall i :: 0 <= i < |rows| ==> (m[i] <==> rows[i].targetDb == "mesh")
  {
    seq(|rows|, i requires 0 <= i < |rows| => rows[i].targetDb == "mesh")
  }

  function MolecularFunctionMask(rows: seq<Row>): (m: seq<bool>)
    ensures |m| == |rows|
    ensures forall i :: 0 <= i < |rows| ==> (m[i] <==> rows[i].targetType == "molecular function")
  {
    seq(|rows|, i requires 0 <= i < |rows| => rows[i].targetType == "molecular function")
  }

  /** The single-mapping report of one slice, as `get_single_mappings`
      defines it. */
  ghost predicate Reports(rows: seq<Row>, mask: seq<bool>, errors: map<Triple, set<string>>)
    requires |mask| == |rows|
  {
    forall key, id :: id in SetGet(errors, key) <==> id in SliceIds(rows, mask) && SingleMapping(rows, id, key)
  }

  /** `mappings`: all four slices are evaluated, each independently of the
      others; `notDone` is whether the closing message is printed. The
      command never exits with a failure status. */
  method Mappings(rows: seq<Row>)
    returns (pr: map<Triple, set<string>>, goComplex: map<Triple, set<string>>,
             mesh: map<Triple, set<string>>, mf: map<Triple, set<string>>, notDone: bool)
    ensures Reports(rows, ProteinPrMask(rows), pr)
    ensures Reports(rows, GoComplexMask(rows), goComplex)
    ensures Reports(rows, MeshMask(rows), mesh)
    ensures Reports(rows, MolecularFunctionMask(rows), mf)
    ensures notDone <==> pr != map[] || goComplex != map[] || mesh != map[] || mf != map[]
  {
    pr := GetSingleMappings(rows, ProteinPrMask(rows));
    goComplex := GetSingleMappings(rows, GoComplexMask(rows));
    mesh := GetSingleMappings(rows, MeshMask(rows));
    mf := GetSingleMappings(rows, MolecularFunctionMask(rows));
    notDone := pr != map[] || goComplex != map[] || mesh != map[] || mf != map[];
  }

  /** A report is non-empty exactly when some source of the slice has a
      single mapping. */
  lemma ReportNonEmpty(rows: seq<Row>, mask: seq<bool>, errors: map<Triple, set<string>>)
    requires |mask| == |rows|
    requires Reports(rows, mask, errors)
    requires forall key :: key in errors ==> errors[key] != {}
    ensures errors != map[] <==> exists id, key :: id in SliceIds(rows, mask) && SingleMapping(rows, id, key)
  {
    if errors != map[] {
      var key :| key in errors;
      var id :| id in errors[key];
      assert id in SetGet(errors, key);
      assert id in SliceIds(rows, mask) && SingleMapping(rows, id, key);
    }
    if exists id, key :: id in SliceIds(rows, mask) && SingleMapping(rows, id, key) {
      var id, key :| id in SliceIds(rows, mask) && SingleMapping(rows, id, key);
      assert id in SetGet(errors, key);
      assert key in errors;
      assert key in errors.Keys;
    }
  }

  /** The older `mappings`: the protein-ontology slice first, exiting with
      status 1 at once when it reports anything, so that the gene-ontology
      slice is then never checked; only these two slices exist. */
  method LegacyMappings(rows: seq<Row>) returns (status: int, goChecked: bool)
    ensures goChecked <==> !exists id, key :: id in SliceIds(rows, ProteinPrMask(rows)) && SingleMapping(rows, id, key)
    ensures status == 1 <==>
              (exists id, key :: id in SliceIds(rows, ProteinPrMask(rows)) && SingleMapping(rows, id, key))
              || (exists id, key :: id in SliceIds(rows, GoComplexMask(rows)) && SingleMapping(rows, id, key))
    ensures status == 0 || status == 1
  {
    var errors := GetSingleMappings(rows, ProteinPrMask(rows));
    ReportNonEmpty(rows, ProteinPrMask(rows), errors);
    if errors != map[] {
      return 1, false;
    }
    goChecked := true;
    errors := GetSingleMappings(rows, GoComplexMask(rows));
    ReportNonEmpty(rows, GoComplexMask(rows), errors);
    if errors != map[] {
      return 1, goChecked;
    }
    status := 0;
  }

  // ---------------------------------------------------------------- _p

  /** One report entry: the target `(db, id, name)` and the source ids
      mapped only to it, in the order they are printed. */
  type ReportEntry = (Triple, seq<string>)

  /** `max(len(k) for _, _, k in errors)`. */
  function MaxNameLength(entries: seq<ReportEntry>): (m: nat)
    requires entries != []
    ensures forall e :: e in entries ==> |e.0.2| <= m
    ensures exists e :: e in entries && |e.0.2| == m
  {
    if |entries| == 1 then |entries[0].0.2|
    else
      var rest := MaxNameLength(entries[1..]);
      assert forall e :: e in entries <==> e == entries[0] || e in entries[1..];
      if |entries[0].0.2| >= rest then |entries[0].0.2| else rest
  }

  function Spaces(n: nat): (r: string)
    ensures |r| == n && forall i :: 0 <= i < n ==> r[i] == ' '
  {
    seq(n, i => ' ')
  }

  /** `f'{k:{m}}'`: `k` left-aligned in a field of width `m`, never cut. */
  function PadRight(k: string, m: nat): (r: string)
    ensures |r| == if |k| < m then m else |k|
    ensures StartsWith(r, k)
    ensures forall i :: |k| <= i < |r| ==> r[i] == ' '
  {
    if |k| < m then k + Spaces(m - |k|) else k
  }

  /** `"role"`, with an `s` unless exactly one source id is listed. */
  function RoleWord(ids: seq<string>): (w: string)
    ensures w == "role" <==> |ids| == 1
  {
    if |ids| == 1 then "role" else "roles"
  }

  function ReportLine(e: ReportEntry, m: nat): string {
    e.0.0 + ":" + e.0.1 + " ! " + PadRight(e.0.2, m) + " for " + RoleWord(e.1) + " " + Join(e.1, ", ")
  }

  /** `_p(errors)`: one line per entry, the names padded to the longest. */
  function ReportLines(entries: seq<ReportEntry>): (r: seq<string>)
    requires entries != []
    ensures |r| == |entries|
  {
    var m := MaxNameLength(entries);
    seq(|entries|, i requires 0 <= i < |entries| => ReportLine(entries[i], m))
  }

  /** Every padded name has the width of the longest name, so the `for
      role` column lines up after each `db:id ! ` prefix. */
  lemma ReportLinesAligned(entries: seq<ReportEntry>)
    requires entries != []
    ensures forall i :: 0 <= i < |entries| ==>
              var e := entries[i];
              var p := PadRight(e.0.2, MaxNameLength(entries));
              && |p| == MaxNameLength(entries)
              && ReportLines(entries)[i] == e.0.0 + ":" + e.0.1 + " ! " + p + " for " + RoleWord(e.1) + " " + Join(e.1, ", ")
  {
    forall i | 0 <= i < |entries| ensures |PadRight(entries[i].0.2, MaxNameLength(entries))| == MaxNameLength(entries) {
      assert entries[i] in entries;
    }
  }

  // ---------------------------------------------------------------- validate

  /** Which side of a curated row a pair comes from. */
  datatype Side = Source | Target

  /** The reason `validate` stops: a prefix that is not in its normal form
      (the normal form absent for an unknown prefix), or an identifier that
      does not match its prefix's pattern; `row` is the row index. */
  datatype Invalid =
    | BadPrefix(side: Side, prefix: string, normal: Option<string>)
    | BadIdentifier(side: Side, row: nat, prefix: string, identifier: string)

  /** The pair at `k` passes: its prefix is in normal form and its
      identifier matches the prefix's pattern. */
  predicate PairOk(pairs: seq<(string, string)>, k: nat, normalize: string -> Option<string>, valid: (string, string) -> bool)
    requires k < |pairs|
  {
    normalize(pairs[k].0) == Some(pairs[k].0) && valid(pairs[k].0, pairs[k].1)
  }

  /** What is raised for the failing pair at `k`. */
  function InvalidAt(pairs: seq<(string, string)>, side: Side, k: nat, normalize: string -> Option<string>): Invalid
    requires k < |pairs|
  {
    if normalize(pairs[k].0) != Some(pairs[k].0) then BadPrefix(side, pairs[k].0, normalize(pairs[k].0))
    else BadIdentifier(side, k, pairs[k].0, pairs[k].1)
  }

  /** The first failing pair of one side, scanned from row `i` on. */
  function FirstInvalid(pairs: seq<(string, string)>, side: Side, i: nat,
                        normalize: string -> Option<string>, valid: (string, string) -> bool): (r: Option<Invalid>)
    requires i <= |pairs|
    ensures r.None? <==> forall k :: i <= k < |pairs| ==> PairOk(pairs, k, normalize, valid)
    ensures r.Some? ==> exists k :: && i <= k < |pairs| && !PairOk(pairs, k, normalize, valid)
                                    && (forall l :: i <= l < k ==> PairOk(pairs, l, normalize, valid))
                                    && r.value == InvalidAt(pairs, side, k, normalize)
    decreases |pairs| - i
  {
    if i == |pairs| then None
    else if !PairOk(pairs, i, normalize, valid) then Some(InvalidAt(pairs, side, i, normalize))
    else FirstInvalid(pairs, side, i + 1, normalize, valid)
  }

  function SourcePairs(rows: seq<Row>): seq<(string, string)> {
    seq(|rows|, i requires 0 <= i < |rows| => (rows[i].sourceDb, rows[i].sourceId))
  }

  function TargetPairs(rows: seq<Row>): seq<(string, string)> {
    seq(|rows|, i requires 0 <= i < |rows| => (rows[i].targetDb, rows[i].targetId))
  }

  /** `validate`: every source pair is checked before any target pair, and
      the first failure is the `ValueError` raised. The registry's prefix
      normalisation and pattern check are parameters. */
  function Validate(rows: seq<Row>, normalize: string -> Option<string>, valid: (string, string) -> bool): Option<Invalid> {
    match FirstInvalid(SourcePairs(rows), Source, 0, normalize, valid)
    case Some(e) => Some(e)
    case None => FirstInvalid(TargetPairs(rows), Target, 0, normalize, valid)
  }

  /** Validation passes iff every source and every target prefix is in its
      normal form and every identifier matches its prefix's pattern; a
      failing source pair is reported even when a target pair fails too. */
  lemma ValidateSpec(rows: seq<Row>, normalize: string -> Option<string>, valid: (string, string) -> bool)
    ensures Validate(rows, normalize, valid).None? <==>
              forall k :: 0 <= k < |rows| ==>
                && normalize(rows[k].sourceDb) == Some(rows[k].sourceDb) && valid(rows[k].sourceDb, rows[k].sourceId)
                && normalize(rows[k].targetDb) == Some(rows[k].targetDb) && valid(rows[k].targetDb, rows[k].targetId)
    ensures (exists k :: 0 <= k < |rows| &&
              !(normalize(rows[k].sourceDb) == Some(rows[k].sourceDb) && valid(rows[k].sourceDb, rows[k].sourceId)))
            ==> Validate(rows, normalize, valid).Some? && Validate(rows, normalize, valid).value.side == Source
  {
    var s := SourcePairs(rows);
    var t := TargetPairs(rows);
    assert forall k :: 0 <= k < |rows| ==> s[k] == (rows[k].sourceDb, rows[k].sourceId) && t[k] == (rows[k].targetDb, rows[k].targetId);
    assert forall k :: 0 <= k < |rows| ==> (PairOk(s, k, normalize, valid) <==>
              normalize(rows[k].sourceDb) == Some(rows[k].sourceDb) && valid(rows[k].sourceDb, rows[k].sourceId));
    assert forall k :: 0 <= k < |rows| ==> (PairOk(t, k, normalize, valid) <==>
              normalize(rows[k].targetDb) == Some(rows[k].targetDb) && valid(rows[k].targetDb, rows[k].targetId));
  }
}

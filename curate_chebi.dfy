/** The ChEBI curation worksheets of `src/chemical_roles/curate/chebi.py`:
    relations proposed for the `EC ...` enzyme-modulator roles, the candidate
    sets for the inhibitor suggestions, and the rows written for the
    grounding results of a role name stripped of its suffix. */
module CurateChebi {

  import opened Wrappers
  import opened Text
  import opened Rows
  import opened EnzymeCodes
  import opened CurationUtils

  // ---------------------------------------------------------------- propose_enzyme_modulators

  /** The modulation and the EC numbers a ChEBI role name designates, or
      `None` when the name is not an enzyme-modulator role. */
  function EcClassification(name: string): (r: Option<(string, seq<string>)>)
    ensures r.Some? <==> (name in SpecialNames
              || (StartsWith(name, "EC ") && (EndsWith(name, "inhibitor") || EndsWith(name, "activator"))))
    ensures r.Some? ==> r.value.1 != [] && (r.value.0 == "inhibitor" || r.value.0 == "activator")
    ensures r.Some? && name !in SpecialNames ==> EndsWith(name, r.value.0) && |r.value.1| == 1
    ensures r.Some? && name !in SpecialNames ==> '*' !in r.value.1[0] && Count(r.value.1[0], '.') >= 3
    ensures name in SpecialNames ==> r == Some(("inhibitor", SpecialNames[name]))
  {
    if name in SpecialNames then Some(("inhibitor", SpecialNames[name]))
    else if StartsWith(name, "EC ") && (EndsWith(name, "inhibitor") || EndsWith(name, "activator")) then
      EcNamesParse(name);
      var modulation := if EndsWith(name, "inhibitor") then "inhibitor" else "activator";
      Some((modulation, [EcCodeOf(name).value]))
    else None
  }

  /** The branch chain that classifies a name, with the padding loop. */
  method ClassifyEcName(name: string) returns (r: Option<(string, seq<string>)>)
    ensures r == EcClassification(name)
  {
    if name in SpecialNames {
      return Some(("inhibitor", SpecialNames[name]));
    }
    if !StartsWith(name, "EC ") {
      return None;
    }
    var modulation;
    if EndsWith(name, "inhibitor") {
      modulation := "inhibitor";
    } else if EndsWith(name, "activator") {
      modulation := "activator";
    } else {
      return None;
    }
    EcNamesParse(name);
    var code := PadEcCode(Cleanup(EcToken(name).value));
    r := Some((modulation, [code]));
  }

  /** `pyobo.get_name("eccode", code) or code`: an empty or missing name
      falls back to the code itself. */
  function EcName(ecName: string -> Option<string>, code: string): (r: string)
    ensures r == code || ecName(code) == Some(r)
    ensures r == code <== ecName(code).None? || ecName(code) == Some("")
  {
    match ecName(code)
    case Some(n) => if n != "" then n else code
    case None => code
  }

  function GoPairs(ec2go: map<string, seq<(string, string)>>, code: string): seq<(string, string)> {
    if code in ec2go then ec2go[code] else []
  }

  function EcRow(id: string, name: string, modulation: string, code: string, ecName: string -> Option<string>): Row {
    Row("chebi", id, name, modulation, "protein family", "ec-code", code, EcName(ecName, code))
  }

  function GoRow(id: string, name: string, modulation: string, pair: (string, string)): Row {
    Row("chebi", id, name, modulation, "activity", "go", pair.0, pair.1)
  }

  function GoRows(id: string, name: string, modulation: string, pairs: seq<(string, string)>): seq<Row> {
    if pairs == [] then []
    else GoRows(id, name, modulation, pairs[..|pairs| - 1]) + [GoRow(id, name, modulation, pairs[|pairs| - 1])]
  }

  /** The rows of one code: its `protein family` row, then its activities. */
  function CodeRows(id: string, name: string, modulation: string, code: string,
                    ec2go: map<string, seq<(string, string)>>, ecName: string -> Option<string>): seq<Row> {
    [EcRow(id, name, modulation, code, ecName)] + GoRows(id, name, modulation, GoPairs(ec2go, code))
  }

  function CodesRows(id: string, name: string, modulation: string, codes: seq<string>,
                     ec2go: map<string, seq<(string, string)>>, ecName: string -> Option<string>): seq<Row> {
    if codes == [] then []
    else CodesRows(id, name, modulation, codes[..|codes| - 1], ec2go, ecName)
         + CodeRows(id, name, modulation, codes[|codes| - 1], ec2go, ecName)
  }

  function NameRows(entry: (string, string), ec2go: map<string, seq<(string, string)>>,
                    ecName: string -> Option<string>): seq<Row> {
    match EcClassification(entry.1)
    case None => []
    case Some(c) => CodesRows(entry.0, entry.1, c.0, c.1, ec2go, ecName)
  }

  /** The rows proposed for the `(identifier, name)` entries of ChEBI, in
      the order of the entries. */
  function ProposedRows(entries: seq<(string, string)>, ec2go: map<string, seq<(string, string)>>,
                        ecName: string -> Option<string>): seq<Row> {
    if entries == [] then []
    else ProposedRows(entries[..|entries| - 1], ec2go, ecName) + NameRows(entries[|entries| - 1], ec2go, ecName)
  }

  /** The rows of one code appended to `rv`: the `protein family` row,
      then one `activity` row per GO pair. */
  method AppendCodeRows(rv: seq<Row>, id: string, name: string, modulation: string, code: string,
                        ec2go: map<string, seq<(string, string)>>, ecName: string -> Option<string>)
    returns (out: seq<Row>)
    ensures out == rv + CodeRows(id, name, modulation, code, ec2go, ecName)
  {
    out := rv + [EcRow(id, name, modulation, code, ecName)];
    var pairs := GoPairs(ec2go, code);
    for k := 0 to |pairs|
      invariant out == rv + [EcRow(id, name, modulation, code, ecName)] + GoRows(id, name, modulation, pairs[..k])
    {
      assert pairs[..k + 1][..k] == pairs[..k];
      out := out + [GoRow(id, name, modulation, pairs[k])];
    }
    assert pairs[..|pairs|] == pairs;
  }

  /** The rows of each code in turn appended to `rv`. */
  method AppendCodesRows(rv: seq<Row>, id: string, name: string, modulation: string, codes: seq<string>,
                         ec2go: map<string, seq<(string, string)>>, ecName: string -> Option<string>)
    returns (out: seq<Row>)
    ensures out == rv + CodesRows(id, name, modulation, codes, ec2go, ecName)
  {
    out := rv;
    for j := 0 to |codes|
      invariant out == rv + CodesRows(id, name, modulation, codes[..j], ec2go, ecName)
    {
      var next := codes[..j + 1];
      assert next[..|next| - 1] == codes[..j] && next[|next| - 1] == codes[j];
      assert CodesRows(id, name, modulation, next, ec2go, ecName)
          == CodesRows(id, name, modulation, codes[..j], ec2go, ecName) + CodeRows(id, name, modulation, codes[j], ec2go, ecName);
      out := AppendCodeRows(out, id, name, modulation, codes[j], ec2go, ecName);
    }
    assert codes[..|codes|] == codes;
  }

  /** The rows of one ChEBI entry appended to `rv`. */
  method AppendNameRows(rv: seq<Row>, entry: (string, string),
                        ec2go: map<string, seq<(string, string)>>, ecName: string -> Option<string>)
    returns (out: seq<Row>)
    ensures out == rv + NameRows(entry, ec2go, ecName)
  {
    var cls := ClassifyEcName(entry.1);
    match cls
    case None =>
      out := rv;
    case Some(c) =>
      out := AppendCodesRows(rv, entry.0, entry.1, c.0, c.1, ec2go, ecName);
  }

  /** `propose_enzyme_modulators`. */
  method ProposeEnzymeModulators(entries: seq<(string, string)>, ec2go: map<string, seq<(string, string)>>,
                                 ecName: string -> Option<string>) returns (rv: seq<Row>)
    ensures rv == ProposedRows(entries, ec2go, ecName)
  {
    rv := [];
    for i := 0 to |entries|
      invariant rv == ProposedRows(entries[..i], ec2go, ecName)
    {
      assert entries[..i + 1][..i] == entries[..i];
      rv := AppendNameRows(rv, entries[i], ec2go, ecName);
    }
    assert entries[..|entries|] == entries;
  }

  lemma {:induction false} GoRowsMembership(id: string, name: string, modulation: string,
                                            pairs: seq<(string, string)>, row: Row)
    ensures row in GoRows(id, name, modulation, pairs) <==>
              exists p :: p in pairs && row == GoRow(id, name, modulation, p)
  {
    if pairs != [] {
      var init := pairs[..|pairs| - 1];
      GoRowsMembership(id, name, modulation, init, row);
      assert forall p :: p in pairs <==> p in init || p == pairs[|pairs| - 1];
    }
  }

  lemma {:induction false} CodesRowsMembership(id: string, name: string, modulation: string, codes: seq<string>,
                                               ec2go: map<string, seq<(string, string)>>,
                                               ecName: string -> Option<string>, row: Row)
    ensures row in CodesRows(id, name, modulation, codes, ec2go, ecName) <==>
              exists c :: c in codes && row in CodeRows(id, name, modulation, c, ec2go, ecName)
  {
    if codes != [] {
      var init := codes[..|codes| - 1];
      CodesRowsMembership(id, name, modulation, init, ec2go, ecName, row);
      assert forall c :: c in codes <==> c in init || c == codes[|codes| - 1];
    }
  }

  lemma {:induction false} ProposedRowsMembership(entries: seq<(string, string)>,
                                                  ec2go: map<string, seq<(string, string)>>,
                                                  ecName: string -> Option<string>, row: Row)
    ensures row in ProposedRows(entries, ec2go, ecName) <==>
              exists e :: e in entries && row in NameRows(e, ec2go, ecName)
  {
    if entries != [] {
      var init := entries[..|entries| - 1];
      ProposedRowsMembership(init, ec2go, ecName, row);
      assert forall e :: e in entries <==> e in init || e == entries[|entries| - 1];
    }
  }

  /** `row` is the `protein family` row of `code` or one of its activities. */
  ghost predicate FromCode(id: string, name: string, m: string, code: string,
                           ec2go: map<string, seq<(string, string)>>, ecName: string -> Option<string>, row: Row) {
    row == EcRow(id, name, m, code, ecName) || exists p :: p in GoPairs(ec2go, code) && row == GoRow(id, name, m, p)
  }

  ghost predicate Proposed(entries: seq<(string, string)>, ec2go: map<string, seq<(string, string)>>,
                           ecName: string -> Option<string>, row: Row) {
    exists e, m, codes, c :: (e in entries && EcClassification(e.1) == Some((m, codes)) && c in codes
      && FromCode(e.0, e.1, m, c, ec2go, ecName, row))
  }

  lemma ProposedRowOrigin(entries: seq<(string, string)>, ec2go: map<string, seq<(string, string)>>,
                          ecName: string -> Option<string>, row: Row)
    requires row in ProposedRows(entries, ec2go, ecName)
    ensures Proposed(entries, ec2go, ecName, row)
  {
    ProposedRowsMembership(entries, ec2go, ecName, row);
    var e :| e in entries && row in NameRows(e, ec2go, ecName);
    var cls := EcClassification(e.1).value;
    CodesRowsMembership(e.0, e.1, cls.0, cls.1, ec2go, ecName, row);
    var c :| c in cls.1 && row in CodeRows(e.0, e.1, cls.0, c, ec2go, ecName);
    GoRowsMembership(e.0, e.1, cls.0, GoPairs(ec2go, c), row);
    assert FromCode(e.0, e.1, cls.0, c, ec2go, ecName, row);
  }

  lemma ProposedRowPresent(entries: seq<(string, string)>, ec2go: map<string, seq<(string, string)>>,
                           ecName: string -> Option<string>, row: Row)
    requires Proposed(entries, ec2go, ecName, row)
    ensures row in ProposedRows(entries, ec2go, ecName)
  {
    var e, m, codes, c :| e in entries && EcClassification(e.1) == Some((m, codes)) && c in codes
       && FromCode(e.0, e.1, m, c, ec2go, ecName, row);
    GoRowsMembership(e.0, e.1, m, GoPairs(ec2go, c), row);
    CodesRowsMembership(e.0, e.1, m, codes, ec2go, ecName, row);
    assert row in NameRows(e, ec2go, ecName);
    ProposedRowsMembership(entries, ec2go, ecName, row);
  }

  /** A proposed row is exactly the `protein family`/`ec-code` row of a code
      some entry's name designates, named by the code when EC has no name
      for it, or one of that code's `activity`/`go` rows. */
  lemma ProposedRowsSpec(entries: seq<(string, string)>, ec2go: map<string, seq<(string, string)>>,
                         ecName: string -> Option<string>, row: Row)
    ensures row in ProposedRows(entries, ec2go, ecName) <==> Proposed(entries, ec2go, ecName, row)
  {
    if row in ProposedRows(entries, ec2go, ecName) {
      ProposedRowOrigin(entries, ec2go, ecName, row);
    }
    if Proposed(entries, ec2go, ecName, row) {
      ProposedRowPresent(entries, ec2go, ecName, row);
    }
  }

  /** The hydroxymethylglutaryl-CoA reductase inhibitor role proposes two
      enzyme classes. */
  lemma HmgCoaTwoCodes(id: string, ec2go: map<string, seq<(string, string)>>, ecName: string -> Option<string>)
    ensures var name := "EC 1.1.1.34/EC 1.1.1.88 (hydroxymethylglutaryl-CoA reductase) inhibitor";
            && EcRow(id, name, "inhibitor", "1.1.1.34", ecName) in NameRows((id, name), ec2go, ecName)
            && EcRow(id, name, "inhibitor", "1.1.1.88", ecName) in NameRows((id, name), ec2go, ecName)
  {
    var name := "EC 1.1.1.34/EC 1.1.1.88 (hydroxymethylglutaryl-CoA reductase) inhibitor";
    var codes := ["1.1.1.34", "1.1.1.88"];
    assert EcClassification(name) == Some(("inhibitor", codes));
    CodesRowsMembership(id, name, "inhibitor", codes, ec2go, ecName, EcRow(id, name, "inhibitor", "1.1.1.34", ecName));
    CodesRowsMembership(id, name, "inhibitor", codes, ec2go, ecName, EcRow(id, name, "inhibitor", "1.1.1.88", ecName));
  }

  // ---------------------------------------------------------------- candidate sets

  /** `get_curated_role_chebi_ids`: the identifiers of the curated relation
      table's ChEBI sources. */
  function CuratedRoleIds(xrefs: seq<Row>): (r: set<string>)
    ensures forall id :: id in r <==> exists row :: row in xrefs && row.sourceDb == "chebi" && row.sourceId == id
  {
    set row | row in xrefs && row.sourceDb == "chebi" :: row.sourceId
  }

  /** The roles `suggest_inhibitor_curation` considers: inhibitors that are
      neither pathway inhibitors nor enzyme inhibitors. */
  function InhibitorCandidates(inhibitors: set<string>, pathwayInhibitors: set<string>,
                               enzymeInhibitors: set<string>): (r: set<string>)
    ensures r <= inhibitors
    ensures r !! pathwayInhibitors && r !! enzymeInhibitors
    ensures inhibitors <= r + pathwayInhibitors + enzymeInhibitors
  {
    inhibitors - pathwayInhibitors - enzymeInhibitors
  }

  // ---------------------------------------------------------------- _iter_gilda

  /** What the worksheets look up about ChEBI: the curated table, the
      irrelevant, blacklisted and reclassified role sets, the name of an
      identifier, and the grounding results for a text. */
  datatype Chebi = Chebi(
    xrefs: seq<Row>,
    irrelevant: set<string>,
    blacklist: set<string>,
    reclassified: set<string>,
    name: string -> Option<string>,
    ground: string -> seq<GildaTerm>)

  /** Index of the first entry of `suffixes` that `name` ends with. */
  function FirstMatch(name: string, suffixes: seq<string>): (r: Option<nat>)
    ensures r.Some? ==> r.value < |suffixes| && EndsWith(name, suffixes[r.value])
    ensures r.Some? ==> forall j :: 0 <= j < r.value ==> !EndsWith(name, suffixes[j])
    ensures r.None? ==> forall j :: 0 <= j < |suffixes| ==> !EndsWith(name, suffixes[j])
  {
    if suffixes == [] then None
    else if EndsWith(name, suffixes[0]) then Some(0)
    else match FirstMatch(name, suffixes[1..])
      case None => None
      case Some(i) => Some(i + 1)
  }

  /** `name[:-len(suffix)].rstrip()`. */
  function SearchText(name: string, suffix: string): string {
    RStrip(CutLast(name, |suffix|))
  }

  /** The suffix `_iter_gilda` grounds `name` with: the given one, or else
      the first entry of `SUFFIXES` the name ends with (none: the name is
      skipped). */
  function ChosenSuffix(name: string, suffix: Option<string>): Option<string> {
    match suffix
    case Some(s) => Some(s)
    case None =>
      match FirstMatch(name, Suffixes())
      case None => None
      case Some(i) => Some(Suffixes()[i])
  }

  /** The rows `_iter_gilda` yields for one identifier. */
  function GildaRowsFor(c: Chebi, id: string, showMissing: bool, suffix: Option<string>): seq<Row> {
    if id in CuratedRoleIds(c.xrefs) || id in c.irrelevant then []
    else match c.name(id)
      case None => []
      case Some(name) =>
        match ChosenSuffix(name, suffix)
        case None => []
        case Some(s) => YieldGilda("chebi", id, name, s, c.ground(SearchText(name, s)), showMissing)
  }

  /** `_iter_gilda(chebi_ids, show_missing, suffix)`. */
  function IterGilda(c: Chebi, ids: seq<string>, showMissing: bool, suffix: Option<string>): (r: seq<Row>)
    ensures forall row :: row in r ==>
              && row.sourceDb == "chebi" && row.sourceId in ids
              && row.sourceId !in CuratedRoleIds(c.xrefs) && row.sourceId !in c.irrelevant
              && c.name(row.sourceId) == Some(row.sourceName)
  {
    if ids == [] then []
    else
      var head := GildaRowsFor(c, ids[0], showMissing, suffix);
      assert forall row :: row in head ==>
               (row.sourceDb == "chebi" && row.sourceId == ids[0] && c.name(ids[0]) == Some(row.sourceName)) by {
        forall row | row in head
          ensures row.sourceDb == "chebi" && row.sourceId == ids[0] && c.name(ids[0]) == Some(row.sourceName)
        {
          var name := c.name(ids[0]).value;
          YieldGildaSource("chebi", ids[0], name, ChosenSuffix(name, suffix).value,
                           c.ground(SearchText(name, ChosenSuffix(name, suffix).value)), showMissing, row);
        }
      }
      head + IterGilda(c, ids[1..], showMissing, suffix)
  }

  /** The modulation a row for `name` carries: the given suffix, or else the
      first entry of `SUFFIXES` the name ends with. */
  ghost predicate SuffixLabel(name: string, suffix: Option<string>, modulation: string) {
    match suffix
    case Some(s) => modulation == Label(s)
    case None => exists i :: FirstMatch(name, Suffixes()) == Some(i) && modulation == Suffixes()[i]
  }

  lemma GildaRowsForSpec(c: Chebi, id: string, showMissing: bool, suffix: Option<string>, row: Row)
    requires row in GildaRowsFor(c, id, showMissing, suffix)
    ensures && row.sourceDb == "chebi" && row.sourceId == id
            && id !in CuratedRoleIds(c.xrefs) && id !in c.irrelevant
            && c.name(id) == Some(row.sourceName)
            && SuffixLabel(row.sourceName, suffix, row.modulation)
            && exists s :: ChosenSuffix(row.sourceName, suffix) == Some(s)
                           && GildaRow("chebi", id, row.sourceName, s, c.ground(SearchText(row.sourceName, s)), showMissing, row)
  {
    var name := c.name(id).value;
    var s := if suffix.Some? then suffix.value else Suffixes()[FirstMatch(name, Suffixes()).value];
    YieldGildaSource("chebi", id, name, s, c.ground(SearchText(name, s)), showMissing, row);
    assert ChosenSuffix(name, suffix) == Some(s);
    assert GildaRow("chebi", id, name, s, c.ground(SearchText(name, s)), showMissing, row);
    if suffix.None? {
      SuffixNonEmpty(FirstMatch(name, Suffixes()).value);
    }
  }

  lemma SuffixNonEmpty(i: nat)
    requires i < |Suffixes()|
    ensures Suffixes()[i] != ""
  {
    if i < 9 {
      assert Suffixes()[i] == BaseSuffixes[i];
    } else {
      assert Suffixes()[i] == BaseSuffixes[i - 9] + "s";
    }
  }

  /** Every row is about a listed ChEBI identifier that is neither curated
      nor irrelevant and has a name, carries the suffix it was matched by,
      and is the row of a grounding result for the name without that
      suffix that is not the identifier itself, or its placeholder. */
  lemma {:induction false} IterGildaRows(c: Chebi, ids: seq<string>, showMissing: bool, suffix: Option<string>)
    ensures forall row :: row in IterGilda(c, ids, showMissing, suffix) ==>
              && row.sourceDb == "chebi" && row.sourceId in ids
              && row.sourceId !in CuratedRoleIds(c.xrefs) && row.sourceId !in c.irrelevant
              && c.name(row.sourceId) == Some(row.sourceName)
              && SuffixLabel(row.sourceName, suffix, row.modulation)
              && exists s :: ChosenSuffix(row.sourceName, suffix) == Some(s)
                             && GildaRow("chebi", row.sourceId, row.sourceName, s,
                                         c.ground(SearchText(row.sourceName, s)), showMissing, row)
  {
    if ids != [] {
      IterGildaRows(c, ids[1..], showMissing, suffix);
      forall row | row in GildaRowsFor(c, ids[0], showMissing, suffix)
        ensures row.sourceId == ids[0] && SuffixLabel(row.sourceName, suffix, row.modulation)
        ensures exists s :: ChosenSuffix(row.sourceName, suffix) == Some(s)
                            && GildaRow("chebi", row.sourceId, row.sourceName, s,
                                        c.ground(SearchText(row.sourceName, s)), showMissing, row)
      {
        GildaRowsForSpec(c, ids[0], showMissing, suffix, row);
      }
    }
  }

  /** Every grounding result of an eligible identifier that is not the
      identifier itself gives a row, labelled with the suffix the name is
      grounded with (the given one, or else the first matching entry of
      `SUFFIXES`); an eligible identifier with no grounding result gives
      its placeholder when missing results are shown. */
  lemma {:induction false} IterGildaComplete(c: Chebi, ids: seq<string>, showMissing: bool, suffix: Option<string>,
                                             id: string, s: string)
    requires id in ids && id !in CuratedRoleIds(c.xrefs) && id !in c.irrelevant && c.name(id).Some?
    requires ChosenSuffix(c.name(id).value, suffix) == Some(s)
    ensures forall t :: t in c.ground(SearchText(c.name(id).value, s)) && !IsSelf("chebi", id, t) ==>
              HitRow("chebi", id, c.name(id).value, s, t) in IterGilda(c, ids, showMissing, suffix)
    ensures c.ground(SearchText(c.name(id).value, s)) == [] && showMissing ==>
              Placeholder("chebi", id, c.name(id).value, s) in IterGilda(c, ids, showMissing, suffix)
  {
    if ids[0] != id {
      IterGildaComplete(c, ids[1..], showMissing, suffix, id, s);
    }
  }

  /** With no suffix given, a name ending `antagonist` is labelled
      `antagonist`: the check stops there before reaching `agonist`. */
  lemma AntagonistBeforeAgonist(name: string)
    requires EndsWith(name, "antagonist")
    ensures FirstMatch(name, Suffixes()).Some?
    ensures Suffixes()[FirstMatch(name, Suffixes()).value] == "antagonist"
  {
    assert Suffixes()[3] == BaseSuffixes[3] == "antagonist";
    forall j | 0 <= j < 3 ensures !EndsWith(name, Suffixes()[j]) {
      var w := BaseSuffixes[j];
      assert Suffixes()[j] == w;
      EndsMismatch(name, "antagonist", w, 1);
    }
  }

  // ---------------------------------------------------------------- _suggest_xrefs_curation

  /** The identifiers whose name, case-folded, ends with the case-folded
      suffix; looking up the name of an identifier ChEBI does not know
      raises `AttributeError`. */
  function NameFilter(c: Chebi, ids: seq<string>, suffix: string): (r: Result<seq<string>>)
    ensures r.Success? <==> forall k :: 0 <= k < |ids| ==> c.name(ids[k]).Some?
    ensures r.Failure? ==> r.error.AttributeError?
    ensures r.Success? ==> forall id :: id in r.value <==>
              id in ids && EndsWith(Lower(c.name(id).value), Lower(suffix))
  {
    if ids == [] then Success([])
    else match c.name(ids[0])
      case None => Failure(AttributeError("'NoneType' object has no attribute 'casefold'"))
      case Some(name) =>
        match NameFilter(c, ids[1..], suffix)
        case Failure(e) =>
          assert !(forall k :: 0 <= k < |ids[1..]| ==> c.name(ids[1..][k]).Some?);
          Failure(e)
        case Success(rest) =>
          assert forall k :: 1 <= k < |ids| ==> ids[k] == ids[1..][k - 1];
          if EndsWith(Lower(name), Lower(suffix)) then Success([ids[0]] + rest) else Success(rest)
  }

  /** `_suggest_xrefs_curation(suffix, chebi_ids, show_missing)`: the name
      filter runs over every identifier before any grounding. */
  function SuggestXrefsCuration(c: Chebi, suffix: string, ids: seq<string>, showMissing: bool): Result<seq<Row>> {
    match NameFilter(c, ids, suffix)
    case Failure(e) => Failure(e)
    case Success(kept) => Success(IterGilda(c, kept, showMissing, Some(suffix)))
  }

  /** Every suggested row is about an uncurated, relevant identifier whose
      name ends with the suffix, ignoring case, and is labelled with it. */
  lemma SuggestXrefsRows(c: Chebi, suffix: string, ids: seq<string>, showMissing: bool, row: Row)
    requires SuggestXrefsCuration(c, suffix, ids, showMissing).Success?
    requires row in SuggestXrefsCuration(c, suffix, ids, showMissing).value
    ensures row.sourceId in ids && row.sourceId !in CuratedRoleIds(c.xrefs) && row.sourceId !in c.irrelevant
    ensures c.name(row.sourceId) == Some(row.sourceName) && EndsWith(Lower(row.sourceName), Lower(suffix))
    ensures row.modulation == Label(suffix)
  {
    var kept := NameFilter(c, ids, suffix).value;
    IterGildaRows(c, kept, showMissing, Some(suffix));
  }

  /** `suggest_inhibitor_curation`, given the order in which the candidate
      set is walked: only candidates appear, labelled `inhibitor`. */
  lemma SuggestInhibitorRows(c: Chebi, inhibitors: set<string>, pathwayInhibitors: set<string>,
                             enzymeInhibitors: set<string>, order: seq<string>, row: Row)
    requires forall id :: id in order <==> id in InhibitorCandidates(inhibitors, pathwayInhibitors, enzymeInhibitors)
    requires SuggestXrefsCuration(c, "inhibitor", order, false).Success?
    requires row in SuggestXrefsCuration(c, "inhibitor", order, false).value
    ensures row.sourceId in inhibitors && row.sourceId !in pathwayInhibitors && row.sourceId !in enzymeInhibitors
    ensures row.modulation == "inhibitor"
  {
    SuggestXrefsRows(c, "inhibitor", order, false, row);
  }

  // ---------------------------------------------------------------- suggest_pathway_inhibitor_curation

  /** A printed worksheet row with the text sent for grounding. */
  datatype Suggestion = Suggestion(row: Row, query: string)

  predicate Skipped(c: Chebi, id: string) {
    id in CuratedRoleIds(c.xrefs) || id in c.reclassified || id in c.blacklist
  }

  /** What `suggest_pathway_inhibitor_curation` prints for the pathway
      inhibitors walked in the order `ids`, and the `KeyError` that stops it
      at the first unskipped identifier without a name. */
  function PathwaySuggestions(c: Chebi, ids: seq<string>): (r: (seq<Suggestion>, Option<Error>))
    ensures r.1.Some? <==> exists k :: 0 <= k < |ids| && !Skipped(c, ids[k]) && c.name(ids[k]).None?
    ensures r.1.Some? ==> exists k :: (0 <= k < |ids| && !Skipped(c, ids[k]) && c.name(ids[k]).None?
              && r.1.value == KeyError("chebi:" + ids[k])
              && forall j :: 0 <= j < k ==> Skipped(c, ids[j]) || c.name(ids[j]).Some?)
    ensures forall k :: (0 <= k < |ids| && !Skipped(c, ids[k]) && c.name(ids[k]).Some?
              && EndsWith(c.name(ids[k]).value, "inhibitor") && !StartsWith(c.name(ids[k]).value, "EC ")
              && (forall j :: 0 <= j < k ==> Skipped(c, ids[j]) || c.name(ids[j]).Some?)) ==>
              Suggestion(Row("chebi", ids[k], c.name(ids[k]).value, "inhibitor", "?", "?", "?", "?"),
                         CutLast(c.name(ids[k]).value, |" inhibitor"|)) in r.0
    ensures forall s :: s in r.0 ==>
              && s.row.sourceId in ids && !Skipped(c, s.row.sourceId)
              && c.name(s.row.sourceId) == Some(s.row.sourceName)
              && EndsWith(s.row.sourceName, "inhibitor") && !StartsWith(s.row.sourceName, "EC ")
              && s.row == Row("chebi", s.row.sourceId, s.row.sourceName, "inhibitor", "?", "?", "?", "?")
              && s.query == CutLast(s.row.sourceName, |" inhibitor"|)
  {
    if ids == [] then ([], None)
    else
      var id := ids[0];
      var rest := PathwaySuggestions(c, ids[1..]);
      assert forall k :: 1 <= k < |ids| ==> ids[k] == ids[1..][k - 1];
      if Skipped(c, id) then rest
      else match c.name(id)
        case None => ([], Some(KeyError("chebi:" + id)))
        case Some(name) =>
          if EndsWith(name, "inhibitor") && !StartsWith(name, "EC ") then
            ([Suggestion(Row("chebi", id, name, "inhibitor", "?", "?", "?", "?"), CutLast(name, |" inhibitor"|))] + rest.0, rest.1)
          else rest
  }
}

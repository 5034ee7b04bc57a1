/** The MeSH curation worksheets: `curate_mesh` in
    `src/chemical_roles/curate/mesh.py`, which grounds every uncurated MeSH
    term whose name ends with a role suffix, and the older
    `curate_mesh_relations.py`, which lists the same terms with `?`
    placeholders. Both keep, for a name several suffixes match, the LAST
    match in `SUFFIXES` order. */
module CurateMesh {

  import opened Wrappers
  import opened Text
  import opened Order
  import opened Rows
  import opened CurationUtils
  import CurateChebi

  /** `MESH_BLACKLIST`, and the identical `BLACKLIST` of the older script:
      general drug and gene descriptors that are not chemical roles. */
  const MeshBlacklist: set<string> := {
    "D004791", "D000074389", "D000075203", "D000076742", "D000078742", "D000078903",
    "D004305", "D004366", "D007202", "D007880", "D011355", "D013287", "D015198",
    "D016147", "D016153", "D019155"
  }

  /** The `source_id`s of the curated rows whose `source_db` is `mesh`. */
  function CuratedMeshIds(xrefs: seq<Row>): (r: set<string>)
    ensures forall id :: id in r <==> exists x :: x in xrefs && x.sourceDb == "mesh" && x.sourceId == id
  {
    set x | x in xrefs && x.sourceDb == "mesh" :: x.sourceId
  }

  /** The index of the suffix a MeSH name keeps: the comprehension visits
      every suffix and overwrites the entry, so the last match wins. */
  function LastMatch(name: string, suffixes: seq<string>): (r: Option<nat>)
    ensures r.Some? ==> r.value < |suffixes| && EndsWith(name, suffixes[r.value])
    ensures r.Some? ==> forall j :: r.value < j < |suffixes| ==> !EndsWith(name, suffixes[j])
    ensures r.None? ==> forall j :: 0 <= j < |suffixes| ==> !EndsWith(name, suffixes[j])
  {
    if suffixes == [] then None
    else if EndsWith(name, suffixes[|suffixes| - 1]) then Some(|suffixes| - 1)
    else LastMatch(name, suffixes[..|suffixes| - 1])
  }

  /** A candidate term: identifier, name, the text sent for grounding
      (`name[:-len(suffix)]`, not trimmed) and the label
      `suffix.strip('s')`. */
  datatype MeshTerm = MeshTerm(id: string, name: string, searchText: string, modulation: string)

  /** The entry for a name that ends with `suffix`: the name without the
      suffix's length of trailing characters is sent for grounding. */
  function TermFor(id: string, name: string, suffix: string): (t: MeshTerm)
    ensures t.id == id && t.name == name && t.modulation == StripChar(suffix, 's')
    ensures 0 < |suffix| <= |name| ==> t.searchText + name[|name| - |suffix|..] == name
  {
    var t := MeshTerm(id, name, CutLast(name, |suffix|), StripChar(suffix, 's'));
    assert 0 < |suffix| <= |name| ==> t.searchText + name[|name| - |suffix|..] == name by {
      if 0 < |suffix| <= |name| {
        assert name == name[..|name| - |suffix|] + name[|name| - |suffix|..];
      }
    }
    t
  }

  /** The entry the comprehension makes for one `(identifier, name)`. */
  function Candidate(id: string, name: string, curated: set<string>): (r: Option<MeshTerm>)
    ensures r.Some? <==> id !in curated && id !in MeshBlacklist && LastMatch(Lower(name), Suffixes()).Some?
    ensures r.Some? ==> r.value == TermFor(id, name, Suffixes()[LastMatch(Lower(name), Suffixes()).value])
  {
    if id in curated || id in MeshBlacklist then None
    else match LastMatch(Lower(name), Suffixes())
      case None => None
      case Some(i) => Some(TermFor(id, name, Suffixes()[i]))
  }

  /** The values `f` gives, in order, skipping the items it gives none for. */
  function FilterMap<A, B>(xs: seq<A>, f: A -> Option<B>): seq<B> {
    if xs == [] then []
    else
      var rest := FilterMap(xs[1..], f);
      match f(xs[0])
      case None => rest
      case Some(y) => [y] + rest
  }

  lemma {:induction false} FilterMapSpec<A, B>(xs: seq<A>, f: A -> Option<B>, y: B)
    ensures y in FilterMap(xs, f) <==> exists k :: 0 <= k < |xs| && f(xs[k]) == Some(y)
  {
    if xs != [] {
      FilterMapSpec(xs[1..], f, y);
      if exists k :: 0 <= k < |xs| && f(xs[k]) == Some(y) {
        var k :| 0 <= k < |xs| && f(xs[k]) == Some(y);
        if k > 0 {
          assert xs[1..][k - 1] == xs[k];
        }
      }
      if y in FilterMap(xs[1..], f) {
        var k :| 0 <= k < |xs[1..]| && f(xs[1..][k]) == Some(y);
        assert xs[k + 1] == xs[1..][k];
      }
    }
  }

  /** The `terms` comprehension over the name mapping's items, in order. */
  function MeshTerms(names: seq<(string, string)>, curated: set<string>): seq<MeshTerm> {
    FilterMap(names, (n: (string, string)) => Candidate(n.0, n.1, curated))
  }

  /** A term is a candidate iff it is one of the mapping's entries that is
      neither curated nor blacklisted and whose lower-cased name ends with
      a suffix. */
  lemma MeshTermsSpec(names: seq<(string, string)>, curated: set<string>, t: MeshTerm)
    ensures t in MeshTerms(names, curated) <==>
              exists k :: 0 <= k < |names| && Candidate(names[k].0, names[k].1, curated) == Some(t)
  {
    FilterMapSpec(names, (n: (string, string)) => Candidate(n.0, n.1, curated), t);
  }

  /** `sorted(terms.items(), key=lambda t: t[1][0])`. */
  function NameKey(t: MeshTerm): seq<string> {
    [t.name]
  }

  function SortedTerms(names: seq<(string, string)>, curated: set<string>): (r: seq<MeshTerm>)
    ensures SortedBy(r, NameKey)
    ensures multiset(r) == multiset(MeshTerms(names, curated))
  {
    SortBy(MeshTerms(names, curated), NameKey)
  }

  /** The rows `yield_gilda` writes for each term, in order. */
  function TermsRows(terms: seq<MeshTerm>, ground: string -> seq<GildaTerm>, showMissing: bool): seq<Row> {
    if terms == [] then []
    else
      var t := terms[0];
      YieldGilda("mesh", t.id, t.name, t.modulation, ground(t.searchText), showMissing) + TermsRows(terms[1..], ground, showMissing)
  }

  /** `curate_mesh`: the worksheet rows for the uncurated candidates in
      ascending name order; ungrounded terms get their placeholder when
      asked for and always when an output file is given. */
  function CurateMeshRows(names: seq<(string, string)>, xrefs: seq<Row>, ground: string -> seq<GildaTerm>,
                          showUngrounded: bool, outputGiven: bool): (r: seq<Row>)
    ensures SortedBy(r, (row: Row) => [row.sourceName])
  {
    TermsRowsSorted(SortedTerms(names, CuratedMeshIds(xrefs)), ground, showUngrounded || outputGiven);
    TermsRows(SortedTerms(names, CuratedMeshIds(xrefs)), ground, showUngrounded || outputGiven)
  }

  lemma {:induction false} TermsRowsOrigin(terms: seq<MeshTerm>, ground: string -> seq<GildaTerm>, showMissing: bool, row: Row)
    requires row in TermsRows(terms, ground, showMissing)
    ensures exists t :: t in terms && row.sourceDb == "mesh" && row.sourceId == t.id && row.sourceName == t.name
                        && GildaRow("mesh", t.id, t.name, t.modulation, ground(t.searchText), showMissing, row)
  {
    var t := terms[0];
    var results := ground(t.searchText);
    if row !in YieldGilda("mesh", t.id, t.name, t.modulation, results, showMissing) {
      TermsRowsOrigin(terms[1..], ground, showMissing, row);
      var u :| u in terms[1..] && row.sourceDb == "mesh" && row.sourceId == u.id && row.sourceName == u.name
               && GildaRow("mesh", u.id, u.name, u.modulation, ground(u.searchText), showMissing, row);
    } else {
      YieldGildaSource("mesh", t.id, t.name, t.modulation, results, showMissing, row);
      assert GildaRow("mesh", t.id, t.name, t.modulation, results, showMissing, row);
    }
  }

  /** Rows come out in ascending name order, because the terms do and each
      term's rows carry its name. */
  lemma {:induction false} TermsRowsSorted(terms: seq<MeshTerm>, ground: string -> seq<GildaTerm>, showMissing: bool)
    requires SortedBy(terms, NameKey)
    ensures SortedBy(TermsRows(terms, ground, showMissing), (r: Row) => [r.sourceName])
  {
    if terms != [] {
      var t := terms[0];
      var head := YieldGilda("mesh", t.id, t.name, t.modulation, ground(t.searchText), showMissing);
      var tail := TermsRows(terms[1..], ground, showMissing);
      TermsRowsSorted(terms[1..], ground, showMissing);
      assert SortedBy(terms[1..], NameKey);
      var rows := head + tail;
      forall i, j | 0 <= i < j < |rows| ensures TupLe([rows[i].sourceName], [rows[j].sourceName]) {
        if j < |head| {
          assert rows[i] in head && rows[j] in head;
        } else if i >= |head| {
          assert rows[i] == tail[i - |head|] && rows[j] == tail[j - |head|];
        } else {
          assert rows[i] in head && rows[j] == tail[j - |head|];
          TermsRowsOrigin(terms[1..], ground, showMissing, rows[j]);
          var u :| u in terms[1..] && rows[j].sourceName == u.name;
          var k :| 0 <= k < |terms[1..]| && terms[1..][k] == u;
          assert terms[k + 1] == u;
        }
      }
    }
  }

  /** Every term's rows are written: one per grounding result that is not
      the term itself, or its placeholder when nothing grounds and missing
      terms are shown. */
  lemma {:induction false} TermsRowsComplete(terms: seq<MeshTerm>, ground: string -> seq<GildaTerm>, showMissing: bool,
                                             t: MeshTerm)
    requires t in terms
    ensures forall hit :: hit in ground(t.searchText) && !IsSelf("mesh", t.id, hit) ==>
              HitRow("mesh", t.id, t.name, t.modulation, hit) in TermsRows(terms, ground, showMissing)
    ensures ground(t.searchText) == [] && showMissing ==>
              Placeholder("mesh", t.id, t.name, t.modulation) in TermsRows(terms, ground, showMissing)
  {
    if terms[0] != t {
      TermsRowsComplete(terms[1..], ground, showMissing, t);
    }
  }

  /** The worksheet holds exactly the grounding of the candidates: every
      row is about a listed MeSH term that is not curated, not blacklisted
      and whose name ends with a suffix, and is the row of a non-self
      grounding result of that candidate, with its label, or its
      placeholder; every non-self grounding result of every candidate
      gives its row; and the rows are in ascending name order. */
  lemma CurateMeshRowsSpec(names: seq<(string, string)>, xrefs: seq<Row>, ground: string -> seq<GildaTerm>,
                           showUngrounded: bool, outputGiven: bool)
    ensures forall row :: row in CurateMeshRows(names, xrefs, ground, showUngrounded, outputGiven) ==>
              && row.sourceDb == "mesh" && row.sourceId !in CuratedMeshIds(xrefs) && row.sourceId !in MeshBlacklist
              && exists k :: 0 <= k < |names| && names[k] == (row.sourceId, row.sourceName)
                             && LastMatch(Lower(names[k].1), Suffixes()).Some?
                             && Candidate(names[k].0, names[k].1, CuratedMeshIds(xrefs)).Some?
                             && var t := Candidate(names[k].0, names[k].1, CuratedMeshIds(xrefs)).value;
                                GildaRow("mesh", t.id, t.name, t.modulation, ground(t.searchText),
                                         showUngrounded || outputGiven, row)
    ensures forall k, hit ::
              (&& 0 <= k < |names| && Candidate(names[k].0, names[k].1, CuratedMeshIds(xrefs)).Some?
               && hit in ground(Candidate(names[k].0, names[k].1, CuratedMeshIds(xrefs)).value.searchText)
               && !IsSelf("mesh", names[k].0, hit)) ==>
              HitRow("mesh", names[k].0, names[k].1, Candidate(names[k].0, names[k].1, CuratedMeshIds(xrefs)).value.modulation, hit)
                in CurateMeshRows(names, xrefs, ground, showUngrounded, outputGiven)
    ensures SortedBy(CurateMeshRows(names, xrefs, ground, showUngrounded, outputGiven), (r: Row) => [r.sourceName])
  {
    var curated := CuratedMeshIds(xrefs);
    var terms := SortedTerms(names, curated);
    var show := showUngrounded || outputGiven;
    TermsRowsSorted(terms, ground, show);
    forall row | row in CurateMeshRows(names, xrefs, ground, showUngrounded, outputGiven)
      ensures && row.sourceDb == "mesh" && row.sourceId !in curated && row.sourceId !in MeshBlacklist
              && exists k :: 0 <= k < |names| && names[k] == (row.sourceId, row.sourceName)
                             && LastMatch(Lower(names[k].1), Suffixes()).Some?
                             && Candidate(names[k].0, names[k].1, curated).Some?
                             && var t := Candidate(names[k].0, names[k].1, curated).value;
                                GildaRow("mesh", t.id, t.name, t.modulation, ground(t.searchText), show, row)
    {
      TermsRowsOrigin(terms, ground, show, row);
      var t :| t in terms && row.sourceDb == "mesh" && row.sourceId == t.id && row.sourceName == t.name
               && GildaRow("mesh", t.id, t.name, t.modulation, ground(t.searchText), show, row);
      assert t in multiset(MeshTerms(names, curated));
      MeshTermsSpec(names, curated, t);
      var k :| 0 <= k < |names| && Candidate(names[k].0, names[k].1, curated) == Some(t);
      assert names[k] == (row.sourceId, row.sourceName);
    }
    forall k, hit | 0 <= k < |names| && Candidate(names[k].0, names[k].1, curated).Some?
                    && hit in ground(Candidate(names[k].0, names[k].1, curated).value.searchText)
                    && !IsSelf("mesh", names[k].0, hit)
      ensures HitRow("mesh", names[k].0, names[k].1, Candidate(names[k].0, names[k].1, curated).value.modulation, hit)
                in CurateMeshRows(names, xrefs, ground, showUngrounded, outputGiven)
    {
      var t := Candidate(names[k].0, names[k].1, curated).value;
      MeshTermsSpec(names, curated, t);
      assert t in multiset(terms);
      TermsRowsComplete(terms, ground, show, t);
    }
  }

  /** With an output file, every candidate that grounds to nothing still
      gets its placeholder row, whatever `--show-ungrounded` says. */
  lemma OutputShowsUngrounded(names: seq<(string, string)>, xrefs: seq<Row>, ground: string -> seq<GildaTerm>,
                              showUngrounded: bool, k: nat)
    requires k < |names|
    requires Candidate(names[k].0, names[k].1, CuratedMeshIds(xrefs)).Some?
    requires ground(Candidate(names[k].0, names[k].1, CuratedMeshIds(xrefs)).value.searchText) == []
    ensures var t := Candidate(names[k].0, names[k].1, CuratedMeshIds(xrefs)).value;
            Placeholder("mesh", t.id, t.name, t.modulation) in CurateMeshRows(names, xrefs, ground, showUngrounded, true)
  {
    var curated := CuratedMeshIds(xrefs);
    var t := Candidate(names[k].0, names[k].1, curated).value;
    MeshTermsSpec(names, curated, t);
    assert t in multiset(SortedTerms(names, curated));
    TermsRowsComplete(SortedTerms(names, curated), ground, true, t);
  }

  // ---------------------------------------------------------------- curate_mesh_relations.py

  /** One line of the older worksheet: `mesh`, identifier, name, label and
      four `?`. */
  function LegacyRow(t: MeshTerm): Row {
    Row("mesh", t.id, t.name, t.modulation, "?", "?", "?", "?")
  }

  /** The older script's `main`: the same candidates, in ascending name
      order, as placeholder lines. */
  function LegacyMeshRows(names: seq<(string, string)>, xrefs: seq<Row>): (r: seq<Row>)
    ensures |r| == |MeshTerms(names, CuratedMeshIds(xrefs))|
    ensures forall i :: 0 <= i < |r| ==> r[i] == LegacyRow(SortedTerms(names, CuratedMeshIds(xrefs))[i])
  {
    var terms := SortedTerms(names, CuratedMeshIds(xrefs));
    assert |terms| == |multiset(terms)|;
    seq(|terms|, i requires 0 <= i < |terms| => LegacyRow(terms[i]))
  }

  /** The older worksheet has exactly one line per candidate, in ascending
      name order. */
  lemma LegacyMeshRowsSpec(names: seq<(string, string)>, xrefs: seq<Row>)
    ensures forall t :: t in MeshTerms(names, CuratedMeshIds(xrefs)) ==> LegacyRow(t) in LegacyMeshRows(names, xrefs)
    ensures SortedBy(LegacyMeshRows(names, xrefs), (r: Row) => [r.sourceName])
  {
    var terms := SortedTerms(names, CuratedMeshIds(xrefs));
    var rows := LegacyMeshRows(names, xrefs);
    forall t | t in MeshTerms(names, CuratedMeshIds(xrefs)) ensures LegacyRow(t) in rows {
      assert t in multiset(terms);
      var i :| 0 <= i < |terms| && terms[i] == t;
      assert rows[i] == LegacyRow(t);
    }
    forall i, j | 0 <= i < j < |rows| ensures TupLe([rows[i].sourceName], [rows[j].sourceName]) {
      assert TupLe(NameKey(terms[i]), NameKey(terms[j]));
    }
  }

  // ---------------------------------------------------------------- the suffix choice

  /** The plural entries of `Suffixes()`. */
  lemma PluralAt(i: nat)
    requires 9 <= i < 18
    ensures Suffixes()[i] == BaseSuffixes[i - 9] + "s"
  {
    SuffixesShape();
    assert Suffixes()[i - 9] == Suffixes()[..9][i - 9];
  }

  lemma PluralEntry(i: nat, w: string)
    requires 9 <= i < 18 && BaseSuffixes[i - 9] == w
    ensures Suffixes()[i] == w + "s"
  {
    PluralAt(i);
  }

  /** No suffix after `agonists` matches a name ending `antagonists`. */
  lemma NoMatchAfterAgonists(n: string)
    requires EndsWith(n, "antagonists")
    ensures forall j :: 13 < j < 18 ==> !EndsWith(n, Suffixes()[j])
  {
    var a := "antagonists";
    PluralEntry(14, "modulator");
    PluralEntry(15, "suppressor");
    PluralEntry(16, "drug");
    PluralEntry(17, "agent");
    EndsMismatch(n, a, "modulators", 2);
    EndsMismatch(n, a, "suppressors", 2);
    EndsMismatch(n, a, "drugs", 2);
    EndsMismatch(n, a, "agents", 3);
  }

  lemma AgonistsMatches(n: string)
    requires EndsWith(n, "antagonists")
    ensures EndsWith(n, Suffixes()[13]) && Suffixes()[13] == "agonists"
  {
    var a := "antagonists";
    PluralEntry(13, "agonist");
    assert n[|n| - 8..] == a[3..];
  }

  /** A plural antagonist name is labelled `agonist`: `agonists` also
      matches and comes later in `SUFFIXES`. */
  lemma AntagonistsLabelledAgonist(name: string)
    requires EndsWith(Lower(name), "antagonists")
    ensures LastMatch(Lower(name), Suffixes()) == Some(13)
    ensures StripChar(Suffixes()[13], 's') == "agonist"
  {
    var n := Lower(name);
    AgonistsMatches(n);
    NoMatchAfterAgonists(n);
    LastMatchIs(n, Suffixes(), 13);
    StripAgonists();
  }

  /** The last match is the matching index with no match after it. */
  lemma LastMatchIs(n: string, suffixes: seq<string>, i: nat)
    requires i < |suffixes| && EndsWith(n, suffixes[i])
    requires forall j :: i < j < |suffixes| ==> !EndsWith(n, suffixes[j])
    ensures LastMatch(n, suffixes) == Some(i)
  {
  }

  /** The first match is the matching index with no match before it. */
  lemma FirstMatchIs(n: string, suffixes: seq<string>, i: nat)
    requires i < |suffixes| && EndsWith(n, suffixes[i])
    requires forall j :: 0 <= j < i ==> !EndsWith(n, suffixes[j])
    ensures CurateChebi.FirstMatch(n, suffixes) == Some(i)
  {
  }

  lemma StripAgonists()
    ensures StripChar("agonists", 's') == "agonist"
  {
    assert LStripChar("agonists", 's') == "agonists";
    assert RStripChar("agonist", 's') == "agonist";
  }

  /** `strip('s')` also removes the leading `s` of `suppressor`. */
  lemma SuppressorLabel()
    ensures StripChar("suppressor", 's') == "uppressor"
    ensures StripChar("suppressors", 's') == "uppressor"
  {
    assert LStripChar("suppressor", 's') == "uppressor";
    assert RStripChar("uppressor", 's') == "uppressor";
    assert LStripChar("suppressors", 's') == "uppressors";
    assert RStripChar("uppressors", 's') == "uppressor";
  }

  /** The label the scripts evidently intend: the singular role, with only
      the plural `s` removed. */
  function IntendedLabel(suffix: string): string {
    RStripChar(suffix, 's')
  }

  /** The candidate as evidently intended: the first matching suffix, as
      the ChEBI worksheet takes it, and the singular role as the label. */
  function IntendedCandidate(id: string, name: string, curated: set<string>): (r: Option<MeshTerm>)
    ensures r.Some? <==> Candidate(id, name, curated).Some?
  {
    if id in curated || id in MeshBlacklist then None
    else match CurateChebi.FirstMatch(Lower(name), Suffixes())
      case None => None
      case Some(i) =>
        var s := Suffixes()[i];
        Some(MeshTerm(id, name, CutLast(name, |s|), IntendedLabel(s)))
  }

  /** Removing trailing `s` from a word that does not end in one, with or
      without a plural `s`, gives the word. */
  lemma RStripPlural(w: string)
    requires w != [] && w[|w| - 1] != 's'
    ensures RStripChar(w, 's') == w && RStripChar(w + "s", 's') == w
  {
    assert (w + "s")[..|w|] == w;
  }

  /** Each suffix's intended label is its singular role. */
  lemma IntendedLabels()
    ensures forall i :: 0 <= i < 18 ==> IntendedLabel(Suffixes()[i]) == BaseSuffixes[i % 9]
  {
    forall i | 0 <= i < 18 ensures IntendedLabel(Suffixes()[i]) == BaseSuffixes[i % 9] {
      IntendedLabelAt(i);
    }
  }

  lemma IntendedLabelAt(i: nat)
    requires i < 18
    ensures IntendedLabel(Suffixes()[i]) == BaseSuffixes[i % 9]
  {
    var j := if i < 9 then i else i - 9;
    assert i % 9 == j;
    var w := BaseSuffixes[j];
    SingularShape(j);
    RStripPlural(w);
    if i >= 9 {
      PluralAt(i);
    } else {
      SingularAt(i);
    }
  }

  lemma SingularAt(i: nat)
    requires i < 9
    ensures Suffixes()[i] == BaseSuffixes[i]
  {
    assert Suffixes()[i] == (BaseSuffixes + Plurals(BaseSuffixes))[i];
  }

  lemma SingularShape(i: nat)
    requires i < 9
    ensures BaseSuffixes[i] != [] && BaseSuffixes[i][|BaseSuffixes[i]| - 1] != 's'
  {
  }

  /** No suffix before `antagonists` matches a name ending `antagonists`. */
  lemma NoMatchBeforeAntagonists(n: string)
    requires EndsWith(n, "antagonists")
    ensures forall j :: 0 <= j < 12 ==> !EndsWith(n, Suffixes()[j])
  {
    var a := "antagonists";
    forall j | 0 <= j < 9 ensures !EndsWith(n, Suffixes()[j]) {
      SingularAt(j);
      SingularShape(j);
      EndsMismatch(n, a, BaseSuffixes[j], 1);
    }
    PluralEntry(9, "inhibitor");
    PluralEntry(10, "deactivator");
    PluralEntry(11, "activator");
    EndsMismatch(n, a, "inhibitors", 2);
    EndsMismatch(n, a, "deactivators", 2);
    EndsMismatch(n, a, "activators", 2);
  }

  /** With the intended choice a plural antagonist name is labelled
      `antagonist`. */
  lemma IntendedAntagonistLabel(id: string, name: string, curated: set<string>)
    requires id !in curated && id !in MeshBlacklist
    requires EndsWith(Lower(name), "antagonists")
    ensures IntendedCandidate(id, name, curated).Some?
    ensures IntendedCandidate(id, name, curated).value.modulation == "antagonist"
  {
    var n := Lower(name);
    NoMatchBeforeAntagonists(n);
    PluralEntry(12, "antagonist");
    FirstMatchIs(n, Suffixes(), 12);
    IntendedCandidateAt(id, name, curated, 12);
    IntendedLabelAt(12);
    assert BaseSuffixes[3] == "antagonist";
  }

  lemma IntendedCandidateAt(id: string, name: string, curated: set<string>, i: nat)
    requires id !in curated && id !in MeshBlacklist
    requires CurateChebi.FirstMatch(Lower(name), Suffixes()) == Some(i)
    ensures i < |Suffixes()|
    ensures IntendedCandidate(id, name, curated) == Some(MeshTerm(id, name, CutLast(name, |Suffixes()[i]|), IntendedLabel(Suffixes()[i])))
  {
  }

  /** With the intended label the suppressor suffixes read `suppressor`. */
  lemma IntendedSuppressorLabel()
    ensures IntendedLabel("suppressor") == "suppressor" && IntendedLabel("suppressors") == "suppressor"
  {
    RStripPlural("suppressor");
  }
}

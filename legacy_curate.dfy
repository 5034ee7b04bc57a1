/** The older, self-contained curation script `curate_chebi_relations.py`:
    enzyme-modulator relations read off `EC ...` role names together with
    the ExPASy classes and proteins under each code, the suggestion
    worksheets, the relations inferred by re-keying each curated role onto
    the ChEBI terms that have it, and the final sorted table. Its rows have
    seven columns and no source namespace. */
module CurateChebiRelations {

  import opened Wrappers
  import opened Text
  import opened Order
  import opened Rows
  import opened EnzymeCodes
  import opened CurationUtils
  import opened TargetExpansion
  import CurateChebi

  /** A row `(chebi_id, chebi_name, modulation, entity_type, db, db_id, db_name)`. */
  datatype Xref = Xref(
    chebiId: string, chebiName: string, modulation: string,
    entityType: string, db: string, dbId: string, dbName: string)

  /** The script's `BLACKLIST`: protein synthesis inhibitor. */
  const Blacklist: set<string> := {"CHEBI:48001"}

  // ---------------------------------------------------------------- get_enzyme_inhibitor_df

  /** An ExPASy closure member `(db, identifier, name)`; a missing name is
      the empty string. */
  type Child = (string, string, string)

  /** The row naming the enzyme class itself, identifier and name both the code. */
  function BareRow(id: string, name: string, m: string, code: string): Xref {
    Xref(id, name, m, "enzyme", "ec-code", code, code)
  }

  /** A closure member's row: an `enzyme` when it is an EC class, a
      `protein` otherwise, named by its identifier when it has no name. */
  function ChildRow(id: string, name: string, m: string, c: Child): (r: Xref)
    ensures r.entityType == (if c.0 == "ec-code" then "enzyme" else "protein")
    ensures r.db == c.0 && r.dbId == c.1
    ensures r.dbName == (if c.2 == "" then c.1 else c.2)
  {
    Xref(id, name, m, if c.0 == "ec-code" then "enzyme" else "protein", c.0, c.1, if c.2 != "" then c.2 else c.1)
  }

  function ChildRows(id: string, name: string, m: string, children: seq<Child>): seq<Xref> {
    if children == [] then []
    else ChildRows(id, name, m, children[..|children| - 1]) + [ChildRow(id, name, m, children[|children| - 1])]
  }

  /** The rows of one code: the bare class row, written before the closure
      is consulted, then one row per closure member when the code has one. */
  function LegacyCodeRows(id: string, name: string, m: string, code: string, closure: map<string, seq<Child>>): seq<Xref> {
    [BareRow(id, name, m, code)] + (if code in closure then ChildRows(id, name, m, closure[code]) else [])
  }

  function LegacyCodesRows(id: string, name: string, m: string, codes: seq<string>, closure: map<string, seq<Child>>): seq<Xref> {
    if codes == [] then []
    else LegacyCodesRows(id, name, m, codes[..|codes| - 1], closure) + LegacyCodeRows(id, name, m, codes[|codes| - 1], closure)
  }

  /** The branch chain for one node as written: the codes the name
      designates, and the value of the loop variable `modulation` after it.
      The irregular names of `special` (`SpecialNames` in the script) leave
      `modulation` as the previous node set it, or unbound when no node has
      set it yet. */
  function NodeCodes(special: map<string, seq<string>>, name: string, m: Option<string>): (r: (Option<string>, seq<string>))
    ensures name in special ==> r == (m, special[name])
    ensures name !in special && r.1 != [] ==>
              r.0.Some? && EndsWith(name, r.0.value) && (r.0.value == "inhibitor" || r.0.value == "activator")
    ensures r.1 == [] ==> r.0 == m
  {
    if name in special then (m, special[name])
    else if StartsWith(name, "EC ") then
      if EndsWith(name, "inhibitor") then
        EcNamesParse(name);
        (Some("inhibitor"), [EcCodeOf(name).value])
      else if EndsWith(name, "activator") then
        EcNamesParse(name);
        (Some("activator"), [EcCodeOf(name).value])
      else (m, [])
    else (m, [])
  }

  /** The rows for the `(chebi_id, name)` nodes, walked in order with the
      loop variable `modulation` starting as `m`; an irregular name reached
      before any regular `EC` name raises `UnboundLocalError`. */
  function LegacyEnzymeRows(special: map<string, seq<string>>, nodes: seq<(string, string)>, closure: map<string, seq<Child>>, m: Option<string>): Result<seq<Xref>>
    decreases |nodes|
  {
    if nodes == [] then Success([])
    else
      var (m2, codes) := NodeCodes(special, nodes[0].1, m);
      if codes == [] then LegacyEnzymeRows(special, nodes[1..], closure, m2)
      else if m2.None? then Failure(UnboundLocalError("modulation"))
      else match LegacyEnzymeRows(special, nodes[1..], closure, m2)
        case Failure(e) => Failure(e)
        case Success(rest) => Success(LegacyCodesRows(nodes[0].0, nodes[0].1, m2.value, codes, closure) + rest)
  }

  /** `rv` followed by what the remaining nodes give. */
  function Prepend(rv: seq<Xref>, r: Result<seq<Xref>>): Result<seq<Xref>> {
    match r
    case Failure(e) => Failure(e)
    case Success(rest) => Success(rv + rest)
  }

  /** The branch chain with its padding loop. */
  method ClassifyNode(special: map<string, seq<string>>, name: string, m: Option<string>) returns (r: (Option<string>, seq<string>))
    ensures r == NodeCodes(special, name, m)
  {
    if name in special {
      return (m, special[name]);
    }
    if !StartsWith(name, "EC ") {
      return (m, []);
    }
    var modulation;
    if EndsWith(name, "inhibitor") {
      modulation := "inhibitor";
    } else if EndsWith(name, "activator") {
      modulation := "activator";
    } else {
      return (m, []);
    }
    EcNamesParse(name);
    var code := PadEcCode(Cleanup(EcToken(name).value));
    r := (Some(modulation), [code]);
  }

  /** The rows of one code appended to `rv`. */
  method AppendLegacyCodeRows(rv: seq<Xref>, id: string, name: string, m: string, code: string,
                              closure: map<string, seq<Child>>) returns (out: seq<Xref>)
    ensures out == rv + LegacyCodeRows(id, name, m, code, closure)
  {
    out := rv + [BareRow(id, name, m, code)];
    if code !in closure {
      return;
    }
    var children := closure[code];
    for k := 0 to |children|
      invariant out == rv + [BareRow(id, name, m, code)] + ChildRows(id, name, m, children[..k])
    {
      assert children[..k + 1][..k] == children[..k];
      out := out + [ChildRow(id, name, m, children[k])];
    }
    assert children[..|children|] == children;
  }

  method AppendLegacyCodesRows(rv: seq<Xref>, id: string, name: string, m: string, codes: seq<string>,
                               closure: map<string, seq<Child>>) returns (out: seq<Xref>)
    ensures out == rv + LegacyCodesRows(id, name, m, codes, closure)
  {
    out := rv;
    for j := 0 to |codes|
      invariant out == rv + LegacyCodesRows(id, name, m, codes[..j], closure)
    {
      var next := codes[..j + 1];
      assert next[..|next| - 1] == codes[..j] && next[|next| - 1] == codes[j];
      assert LegacyCodesRows(id, name, m, next, closure)
          == LegacyCodesRows(id, name, m, codes[..j], closure) + LegacyCodeRows(id, name, m, codes[j], closure);
      out := AppendLegacyCodeRows(out, id, name, m, codes[j], closure);
    }
    assert codes[..|codes|] == codes;
  }

  /** `get_enzyme_inhibitor_df`, whose branch chain knows the irregular
      names of `SpecialNames`. */
  method GetEnzymeInhibitorDf(nodes: seq<(string, string)>, closure: map<string, seq<Child>>)
    returns (r: Result<seq<Xref>>)
    ensures r == LegacyEnzymeRows(SpecialNames, nodes, closure, None)
  {
    r := WalkNodes(SpecialNames, nodes, closure);
  }

  /** The loop over the nodes, for any table of irregular names. */
  method WalkNodes(special: map<string, seq<string>>, nodes: seq<(string, string)>, closure: map<string, seq<Child>>)
    returns (r: Result<seq<Xref>>)
    ensures r == LegacyEnzymeRows(special, nodes, closure, None)
  {
    var rv: seq<Xref> := [];
    var modulation: Option<string> := None;
    assert nodes[0..] == nodes;
    assert Prepend([], LegacyEnzymeRows(special, nodes, closure, None)) == LegacyEnzymeRows(special, nodes, closure, None) by {
      if LegacyEnzymeRows(special, nodes, closure, None).Success? {
        assert [] + LegacyEnzymeRows(special, nodes, closure, None).value == LegacyEnzymeRows(special, nodes, closure, None).value;
      }
    }
    for i := 0 to |nodes|
      invariant Prepend(rv, LegacyEnzymeRows(special, nodes[i..], closure, modulation)) == LegacyEnzymeRows(special, nodes, closure, None)
    {
      var (id, name) := nodes[i];
      var step := ClassifyNode(special, name, modulation);
      EnzymeStep(special, nodes, i, closure, modulation, rv, step);
      var codes := step.1;
      modulation := step.0;
      if codes != [] {
        if modulation.None? {
          return Failure(UnboundLocalError("modulation"));
        }
        rv := AppendLegacyCodesRows(rv, id, name, modulation.value, codes, closure);
      }
    }
    assert rv + [] == rv;
    r := Success(rv);
  }

  /** One node of the walk, given what its branch chain decided. */
  lemma EnzymeStep(special: map<string, seq<string>>, nodes: seq<(string, string)>, i: nat, closure: map<string, seq<Child>>, m: Option<string>,
                   rv: seq<Xref>, step: (Option<string>, seq<string>))
    requires i < |nodes| && step == NodeCodes(special, nodes[i].1, m)
    ensures step.1 == [] ==>
              LegacyEnzymeRows(special, nodes[i..], closure, m) == LegacyEnzymeRows(special, nodes[i + 1..], closure, step.0)
    ensures step.1 != [] && step.0.None? ==>
              LegacyEnzymeRows(special, nodes[i..], closure, m) == Failure(UnboundLocalError("modulation"))
    ensures step.1 != [] && step.0.Some? ==>
              Prepend(rv, LegacyEnzymeRows(special, nodes[i..], closure, m))
              == Prepend(rv + LegacyCodesRows(nodes[i].0, nodes[i].1, step.0.value, step.1, closure),
                         LegacyEnzymeRows(special, nodes[i + 1..], closure, step.0))
  {
    assert nodes[i..][1..] == nodes[i + 1..];
    assert nodes[i..][0] == nodes[i];
    if step.1 != [] && step.0.Some? {
      var rows := LegacyCodesRows(nodes[i].0, nodes[i].1, step.0.value, step.1, closure);
      var rest := LegacyEnzymeRows(special, nodes[i + 1..], closure, step.0);
      if rest.Success? {
        assert rv + (rows + rest.value) == rv + rows + rest.value;
      }
    }
  }

  /** With none of the irregular names present the walk never raises, and
      every row carries the ending of its own name as its modulation. */
  lemma {:induction false} RegularNamesSucceed(special: map<string, seq<string>>, nodes: seq<(string, string)>, closure: map<string, seq<Child>>, m: Option<string>)
    requires forall k :: 0 <= k < |nodes| ==> nodes[k].1 !in special
    ensures LegacyEnzymeRows(special, nodes, closure, m).Success?
    ensures forall x :: x in LegacyEnzymeRows(special, nodes, closure, m).value ==>
              (x.modulation == "inhibitor" || x.modulation == "activator") && EndsWith(x.chebiName, x.modulation)
    decreases |nodes|
  {
    if nodes != [] {
      var (m2, codes) := NodeCodes(special, nodes[0].1, m);
      RegularNamesSucceed(special, nodes[1..], closure, m2);
      if codes != [] {
        forall x | x in LegacyCodesRows(nodes[0].0, nodes[0].1, m2.value, codes, closure)
          ensures x.chebiName == nodes[0].1 && x.modulation == m2.value
        {
          LegacyCodesRowsSource(nodes[0].0, nodes[0].1, m2.value, codes, closure, x);
        }
      }
    }
  }

  lemma {:induction false} LegacyCodesRowsSource(id: string, name: string, m: string, codes: seq<string>,
                                                 closure: map<string, seq<Child>>, x: Xref)
    requires x in LegacyCodesRows(id, name, m, codes, closure)
    ensures x.chebiId == id && x.chebiName == name && x.modulation == m
  {
    var init := codes[..|codes| - 1];
    if x in LegacyCodesRows(id, name, m, init, closure) {
      LegacyCodesRowsSource(id, name, m, init, closure, x);
    } else {
      var code := codes[|codes| - 1];
      if x != BareRow(id, name, m, code) {
        ChildRowsSource(id, name, m, closure[code], x);
      }
    }
  }

  lemma {:induction false} ChildRowsSource(id: string, name: string, m: string, children: seq<Child>, x: Xref)
    requires x in ChildRows(id, name, m, children)
    ensures exists c :: c in children && x == ChildRow(id, name, m, c)
  {
    var init := children[..|children| - 1];
    if x in ChildRows(id, name, m, init) {
      ChildRowsSource(id, name, m, init, x);
    } else {
      assert x == ChildRow(id, name, m, children[|children| - 1]);
    }
  }

  /** A regular `EC` name's bare class row is written whether or not the
      ExPASy closure knows the code. */
  lemma {:induction false} BareRowKept(special: map<string, seq<string>>, nodes: seq<(string, string)>, closure: map<string, seq<Child>>,
                                       m: Option<string>, k: nat)
    requires LegacyEnzymeRows(special, nodes, closure, m).Success?
    requires k < |nodes| && nodes[k].1 !in special
    requires StartsWith(nodes[k].1, "EC ") && (EndsWith(nodes[k].1, "inhibitor") || EndsWith(nodes[k].1, "activator"))
    ensures EcCodeOf(nodes[k].1).Success?
    ensures var mod := if EndsWith(nodes[k].1, "inhibitor") then "inhibitor" else "activator";
            BareRow(nodes[k].0, nodes[k].1, mod, EcCodeOf(nodes[k].1).value) in LegacyEnzymeRows(special, nodes, closure, m).value
    decreases |nodes|
  {
    EcNamesParse(nodes[k].1);
    var (m2, codes) := NodeCodes(special, nodes[0].1, m);
    if k == 0 {
      var code := codes[0];
      assert LegacyCodesRows(nodes[0].0, nodes[0].1, m2.value, codes, closure) == LegacyCodeRows(nodes[0].0, nodes[0].1, m2.value, code, closure) by {
        assert codes[..0] == [];
      }
    } else {
      assert nodes[1..][k - 1] == nodes[k];
      BareRowKept(special, nodes[1..], closure, m2, k - 1);
    }
  }

  /** An irregular name reached before any regular `EC` name raises. */
  lemma FirstIrregularNameRaises(special: map<string, seq<string>>, nodes: seq<(string, string)>, closure: map<string, seq<Child>>)
    requires nodes != [] && nodes[0].1 in special && special[nodes[0].1] != []
    ensures LegacyEnzymeRows(special, nodes, closure, None) == Failure(UnboundLocalError("modulation"))
  {
  }

  /** An irregular name right after a regular `EC ... activator` name is
      written with the stale modulation `activator`, though every irregular
      name is an inhibitor (`CurateChebi.EcClassification`). */
  lemma StaleModulation(special: map<string, seq<string>>, a: (string, string), b: (string, string), closure: map<string, seq<Child>>)
    requires StartsWith(a.1, "EC ") && EndsWith(a.1, "activator") && a.1 !in special
    requires b.1 in special && special[b.1] != []
    ensures LegacyEnzymeRows(special, [a, b], closure, None).Success?
    ensures forall code :: code in special[b.1] ==>
              BareRow(b.0, b.1, "activator", code) in LegacyEnzymeRows(special, [a, b], closure, None).value
  {
    var codeA := ActivatorNode(special, a.1);
    var nodes := [a, b];
    var codes := special[b.1];
    var rowsA := LegacyCodesRows(a.0, a.1, "activator", [codeA], closure);
    var rowsB := LegacyCodesRows(b.0, b.1, "activator", codes, closure);
    EnzymeStep(special, nodes, 0, closure, None, [], (Some("activator"), [codeA]));
    EnzymeStep(special, nodes, 1, closure, Some("activator"), rowsA, (Some("activator"), codes));
    assert nodes[0..] == nodes && nodes[2..] == [];
    assert LegacyEnzymeRows(special, nodes, closure, None) == Success(rowsA + rowsB + []);
    forall code | code in codes
      ensures BareRow(b.0, b.1, "activator", code) in rowsA + rowsB + []
    {
      LegacyCodesRowsBare(b.0, b.1, "activator", codes, closure, code);
    }
  }

  /** A regular `EC ... activator` name sets the modulation to `activator`. */
  lemma ActivatorNode(special: map<string, seq<string>>, name: string) returns (code: string)
    requires StartsWith(name, "EC ") && EndsWith(name, "activator") && name !in special
    ensures NodeCodes(special, name, None) == (Some("activator"), [code])
  {
    EcNamesParse(name);
    assert !EndsWith(name, "inhibitor") by {
      assert name[|name| - 1] == 'r';
      assert name[|name| - 9] == 'a';
    }
    code := EcCodeOf(name).value;
  }

  lemma {:induction false} LegacyCodesRowsBare(id: string, name: string, m: string, codes: seq<string>,
                                               closure: map<string, seq<Child>>, code: string)
    requires code in codes
    ensures BareRow(id, name, m, code) in LegacyCodesRows(id, name, m, codes, closure)
  {
    var init := codes[..|codes| - 1];
    if code != codes[|codes| - 1] {
      assert code in init;
      LegacyCodesRowsBare(id, name, m, init, closure, code);
    }
  }

  // ---------------------------------------------------------------- suggestions

  /** The curated identifiers of the seven-column table: every `chebi_id`. */
  function CuratedIds(xrefs: seq<Xref>): (r: set<string>)
    ensures forall id :: id in r <==> exists x :: x in xrefs && x.chebiId == id
  {
    set x | x in xrefs :: x.chebiId
  }

  /** What `suggest_pathway_inhibitor_curation` prints for the pathway
      inhibitors walked in the order `ids`: each node and its name, with the
      text sent for grounding. */
  function LegacyPathwaySuggestions(curated: set<string>, reclassified: set<string>, name: string -> string,
                                    ids: seq<string>): (r: seq<(string, string, string)>)
    ensures forall t :: t in r ==>
              && t.0 in ids && t.0 !in curated && t.0 !in reclassified && t.0 !in Blacklist
              && t.1 == name(t.0) && EndsWith(t.1, "inhibitor") && !StartsWith(t.1, "EC ")
              && t.2 == CutLast(t.1, |" inhibitor"|)
    ensures forall id :: (id in ids && id !in curated && id !in reclassified && id !in Blacklist
              && EndsWith(name(id), "inhibitor") && !StartsWith(name(id), "EC ")) ==>
              (id, name(id), CutLast(name(id), |" inhibitor"|)) in r
  {
    if ids == [] then []
    else
      var id := ids[0];
      var rest := LegacyPathwaySuggestions(curated, reclassified, name, ids[1..]);
      assert forall x :: x in ids <==> x == id || x in ids[1..];
      if id in curated || id in reclassified || id in Blacklist then rest
      else if EndsWith(name(id), "inhibitor") && !StartsWith(name(id), "EC ") then
        [(id, name(id), CutLast(name(id), |" inhibitor"|))] + rest
      else rest
  }

  /** The records `_suggest_xrefs_curation` yields for one node: six fields
      per grounding result (the namespace lower-cased, the identifier kept
      as returned), or the seven-field placeholder. */
  function LegacyNodeRecords(node: string, name: string, suffix: string, results: seq<GildaTerm>,
                             showMissing: bool): (r: seq<seq<string>>)
    ensures results != [] ==> |r| == |results| && forall k :: 0 <= k < |r| ==>
              r[k] == [node, name, suffix, Lower(results[k].db), results[k].id, results[k].entryName]
    ensures results == [] ==> r == (if showMissing then [[node, name, suffix, "?", "?", "?", "?"]] else [])
  {
    if results != [] then
      seq(|results|, k requires 0 <= k < |results| =>
        [node, name, suffix, Lower(results[k].db), results[k].id, results[k].entryName])
    else if showMissing then [[node, name, suffix, "?", "?", "?", "?"]]
    else []
  }

  /** `_suggest_xrefs_curation`: uncurated nodes whose name ends with the
      suffix, case-sensitively, grounded on the name without it. */
  function LegacySuggestXrefs(curated: set<string>, name: string -> string, ground: string -> seq<GildaTerm>,
                              ids: seq<string>, suffix: string, showMissing: bool): seq<seq<string>> {
    if ids == [] then []
    else
      var id := ids[0];
      var rest := LegacySuggestXrefs(curated, name, ground, ids[1..], suffix, showMissing);
      if id in curated || !EndsWith(name(id), suffix) then rest
      else LegacyNodeRecords(id, name(id), suffix, ground(CurateChebi.SearchText(name(id), suffix)), showMissing) + rest
  }

  /** Every record is about an uncurated listed node whose name ends with
      the suffix; hits have six fields, placeholders seven ending in `?`. */
  ghost predicate LegacyRecordShape(curated: set<string>, name: string -> string, ids: seq<string>,
                                    suffix: string, rec: seq<string>) {
    && (|rec| == 6 || (|rec| == 7 && rec[3..] == ["?", "?", "?", "?"]))
    && rec[0] in ids && rec[0] !in curated && rec[1] == name(rec[0])
    && rec[2] == suffix && EndsWith(rec[1], suffix)
  }

  lemma NodeRecordShape(node: string, name: string, suffix: string, results: seq<GildaTerm>,
                        showMissing: bool, rec: seq<string>)
    requires rec in LegacyNodeRecords(node, name, suffix, results, showMissing)
    ensures |rec| == 6 || (|rec| == 7 && rec[3..] == ["?", "?", "?", "?"])
    ensures rec[0] == node && rec[1] == name && rec[2] == suffix
  {
    var rs := LegacyNodeRecords(node, name, suffix, results, showMissing);
    var k :| 0 <= k < |rs| && rs[k] == rec;
  }

  lemma {:induction false} LegacySuggestXrefsRecords(curated: set<string>, name: string -> string,
                                                     ground: string -> seq<GildaTerm>, ids: seq<string>,
                                                     suffix: string, showMissing: bool)
    ensures forall rec :: rec in LegacySuggestXrefs(curated, name, ground, ids, suffix, showMissing) ==>
              LegacyRecordShape(curated, name, ids, suffix, rec)
  {
    if ids != [] {
      var id := ids[0];
      LegacySuggestXrefsRecords(curated, name, ground, ids[1..], suffix, showMissing);
      var rest := LegacySuggestXrefs(curated, name, ground, ids[1..], suffix, showMissing);
      forall rec | rec in LegacySuggestXrefs(curated, name, ground, ids, suffix, showMissing)
        ensures LegacyRecordShape(curated, name, ids, suffix, rec)
      {
        if rec in rest {
          assert LegacyRecordShape(curated, name, ids[1..], suffix, rec);
          assert rec[0] in ids[1..];
        } else {
          NodeRecordShape(id, name(id), suffix, ground(CurateChebi.SearchText(name(id), suffix)), showMissing, rec);
        }
      }
    }
  }

  /** Unlike `yield_gilda`, nothing is suppressed: a result that grounds
      the node to itself is written too. */
  lemma {:induction false} LegacySuggestKeepsEveryHit(curated: set<string>, name: string -> string,
                                                      ground: string -> seq<GildaTerm>, ids: seq<string>,
                                                      suffix: string, showMissing: bool, id: string, t: GildaTerm)
    requires id in ids && id !in curated && EndsWith(name(id), suffix)
    requires t in ground(CurateChebi.SearchText(name(id), suffix))
    ensures [id, name(id), suffix, Lower(t.db), t.id, t.entryName] in LegacySuggestXrefs(curated, name, ground, ids, suffix, showMissing)
  {
    if ids[0] != id {
      LegacySuggestKeepsEveryHit(curated, name, ground, ids[1..], suffix, showMissing, id, t);
    } else {
      var results := ground(CurateChebi.SearchText(name(id), suffix));
      var k :| 0 <= k < |results| && results[k] == t;
      assert LegacyNodeRecords(id, name(id), suffix, results, showMissing)[k] == [id, name(id), suffix, Lower(t.db), t.id, t.entryName];
    }
  }

  // ---------------------------------------------------------------- _iterate_roles

  /** The parts of the ChEBI graph the script reads: the sources of the
      edges into a node, a node's name, and its `relationship` strings. */
  datatype ChebiGraph = ChebiGraph(
    inEdges: string -> seq<string>,
    name: string -> string,
    relationships: string -> seq<string>)

  /** `role, role_chebi_id = r.split()`, which raises `ValueError` unless
      the string has exactly two words. */
  function SplitRelationship(r: string): (res: Result<(string, string)>)
    ensures res.Success? <==> |SplitWhitespace(r)| == 2
    ensures res.Success? ==> [res.value.0, res.value.1] == SplitWhitespace(r)
    ensures res.Failure? ==> res.error.ValueError?
  {
    var words := SplitWhitespace(r);
    if |words| == 2 then Success((words[0], words[1]))
    else if |words| < 2 then Failure(ValueError("not enough values to unpack"))
    else Failure(ValueError("too many values to unpack"))
  }

  /** The `has_role` targets among a node's relationship strings, in order;
      every string is split, so one malformed string raises. */
  function HasRoles(rels: seq<string>): (r: Result<seq<string>>)
    ensures r.Success? <==> forall k :: 0 <= k < |rels| ==> SplitRelationship(rels[k]).Success?
    ensures r.Success? ==> forall id :: id in r.value <==>
              exists k :: 0 <= k < |rels| && SplitRelationship(rels[k]) == Success(("has_role", id))
    ensures r.Failure? ==> r.error.ValueError?
  {
    if rels == [] then Success([])
    else
      var rest := HasRoles(rels[1..]);
      assert forall k :: 1 <= k < |rels| ==> rels[k] == rels[1..][k - 1];
      match SplitRelationship(rels[0])
      case Failure(e) => Failure(e)
      case Success(p) =>
        match rest
        case Failure(e) =>
          assert !(forall k :: 0 <= k < |rels[1..]| ==> SplitRelationship(rels[1..][k]).Success?);
          Failure(e)
        case Success(ids) =>
          if p.0 == "has_role" then Success([p.1] + ids) else Success(ids)
  }

  /** The `(child, name, role)` triples of one child. */
  function ChildTriples(g: ChebiGraph, child: string): Result<seq<(string, string, string)>> {
    match HasRoles(g.relationships(child))
    case Failure(e) => Failure(e)
    case Success(ids) => Success(seq(|ids|, k requires 0 <= k < |ids| => (child, g.name(child), ids[k])))
  }

  function ChildrenTriples(g: ChebiGraph, children: seq<string>): Result<seq<(string, string, string)>> {
    if children == [] then Success([])
    else match ChildTriples(g, children[0])
      case Failure(e) => Failure(e)
      case Success(ts) =>
        match ChildrenTriples(g, children[1..])
        case Failure(e) => Failure(e)
        case Success(rest) => Success(ts + rest)
  }

  /** `_iterate_roles(graph, chebi_ids)`. */
  function IterateRoles(g: ChebiGraph, ids: seq<string>): Result<seq<(string, string, string)>> {
    if ids == [] then Success([])
    else match ChildrenTriples(g, g.inEdges(ids[0]))
      case Failure(e) => Failure(e)
      case Success(ts) =>
        match IterateRoles(g, ids[1..])
        case Failure(e) => Failure(e)
        case Success(rest) => Success(ts + rest)
  }

  /** `child` has the role `role` by one of its relationship strings. */
  ghost predicate HasRole(g: ChebiGraph, child: string, role: string) {
    exists k :: 0 <= k < |g.relationships(child)| && SplitRelationship(g.relationships(child)[k]) == Success(("has_role", role))
  }

  lemma ChildTriplesSpec(g: ChebiGraph, child: string, t: (string, string, string))
    requires ChildTriples(g, child).Success?
    ensures t in ChildTriples(g, child).value <==> t.0 == child && t.1 == g.name(child) && HasRole(g, child, t.2)
  {
    var ids := HasRoles(g.relationships(child)).value;
    var ts := ChildTriples(g, child).value;
    if t in ts {
      var k :| 0 <= k < |ts| && ts[k] == t;
      assert t.2 == ids[k] && ids[k] in ids;
    }
    if t.0 == child && t.1 == g.name(child) && HasRole(g, child, t.2) {
      assert t.2 in ids;
      var k :| 0 <= k < |ids| && ids[k] == t.2;
      assert ts[k] == t;
    }
  }

  lemma {:induction false} ChildrenTriplesSpec(g: ChebiGraph, children: seq<string>, t: (string, string, string))
    requires ChildrenTriples(g, children).Success?
    ensures t in ChildrenTriples(g, children).value <==>
              t.0 in children && t.1 == g.name(t.0) && HasRole(g, t.0, t.2)
  {
    if children != [] {
      ChildTriplesSpec(g, children[0], t);
      ChildrenTriplesSpec(g, children[1..], t);
      assert forall c :: c in children <==> c == children[0] || c in children[1..];
    }
  }

  /** When no relationship string is malformed, a triple is produced iff
      its child has an edge into a listed role and has that role. */
  lemma {:induction false} IterateRolesSpec(g: ChebiGraph, ids: seq<string>, t: (string, string, string))
    requires IterateRoles(g, ids).Success?
    ensures t in IterateRoles(g, ids).value <==>
              (exists i :: i in ids && t.0 in g.inEdges(i)) && t.1 == g.name(t.0) && HasRole(g, t.0, t.2)
  {
    if ids != [] {
      ChildrenTriplesSpec(g, g.inEdges(ids[0]), t);
      IterateRolesSpec(g, ids[1..], t);
      assert forall i :: i in ids <==> i == ids[0] || i in ids[1..];
    }
  }

  // ---------------------------------------------------------------- get_relations_df

  /** The script's FamPlex filter: exactly `HGNC`, `isa` and `FPLX`. */
  predicate LegacyIsMembership(r: FamplexRelation) {
    r.sourceId == "HGNC" && r.rel == "isa" && r.targetDb == "FPLX"
  }

  function LegacyFamplexMembers(rels: seq<FamplexRelation>, symbolToId: map<string, string>): map<string, seq<(string, string)>> {
    if rels == [] then map[]
    else
      var m := LegacyFamplexMembers(rels[..|rels| - 1], symbolToId);
      var r := rels[|rels| - 1];
      if LegacyIsMembership(r) && r.sourceName in symbolToId then
        m[r.targetName := Get(m, r.targetName) + [(symbolToId[r.sourceName], r.sourceName)]]
      else m
  }

  /** The script's filter is stricter than the package's: it accepts only
      the upper-case spellings, which the package also accepts. */
  lemma LegacyMembershipStricter(r: FamplexRelation)
    ensures LegacyIsMembership(r) ==> IsMembership(r)
    ensures !LegacyIsMembership(FamplexRelation("hgnc", r.sourceName, "isa", "FPLX", r.targetName))
    ensures IsMembership(FamplexRelation("hgnc", r.sourceName, "isa", "FPLX", r.targetName))
  {
    assert Lower("HGNC") == "hgnc" && Lower("FPLX") == "fplx" && Lower("hgnc") == "hgnc";
  }

  /** The entries one curated row files under its role: its own, and for
      an `fplx` target one `hgnc` protein per family member. */
  function XrefEntries(x: Xref, famplex: map<string, seq<(string, string)>>): seq<Entry> {
    var members := if x.db == "fplx" then Get(famplex, x.dbId) else [];
    [Entry(x.modulation, x.entityType, x.db, x.dbId, x.dbName)]
      + seq(|members|, k requires 0 <= k < |members| => Entry(x.modulation, "protein", "hgnc", members[k].0, members[k].1))
  }

  /** The `xrefs` table keyed by `chebi_id`. */
  function XrefsTable(xs: seq<Xref>, famplex: map<string, seq<(string, string)>>): map<string, seq<Entry>> {
    if xs == [] then map[]
    else
      var t := XrefsTable(xs[..|xs| - 1], famplex);
      var x := xs[|xs| - 1];
      t[x.chebiId := Get(t, x.chebiId) + XrefEntries(x, famplex)]
  }

  /** The loop filling `xrefs`. */
  method BuildXrefs(xs: seq<Xref>, famplex: map<string, seq<(string, string)>>) returns (t: map<string, seq<Entry>>)
    ensures t == XrefsTable(xs, famplex)
  {
    t := map[];
    for i := 0 to |xs|
      invariant t == XrefsTable(xs[..i], famplex)
    {
      var x := xs[i];
      assert xs[..i + 1][..i] == xs[..i] && xs[..i + 1][i] == x;
      var es := Get(t, x.chebiId) + [Entry(x.modulation, x.entityType, x.db, x.dbId, x.dbName)];
      if x.db == "fplx" {
        var members := Get(famplex, x.dbId);
        for k := 0 to |members|
          invariant es == Get(t, x.chebiId) + XrefEntries(x, famplex)[..k + 1]
        {
          es := es + [Entry(x.modulation, "protein", "hgnc", members[k].0, members[k].1)];
        }
      }
      assert es == Get(t, x.chebiId) + XrefEntries(x, famplex);
      t := t[x.chebiId := es];
    }
    assert xs[..|xs|] == xs;
  }

  /** An entry is filed under a role iff some curated row of that role
      contributes it. */
  lemma {:induction false} XrefsTableSpec(xs: seq<Xref>, famplex: map<string, seq<(string, string)>>, id: string, e: Entry)
    ensures e in Get(XrefsTable(xs, famplex), id) <==> exists x :: x in xs && x.chebiId == id && e in XrefEntries(x, famplex)
  {
    if xs != [] {
      var init := xs[..|xs| - 1];
      XrefsTableSpec(init, famplex, id, e);
      assert forall x :: x in xs <==> x in init || x == xs[|xs| - 1];
    }
  }

  /** A curated `fplx` relation is extended by one `hgnc` protein entry per
      member of the family. */
  lemma FplxExtended(xs: seq<Xref>, famplex: map<string, seq<(string, string)>>, x: Xref, member: (string, string))
    requires x in xs && x.db == "fplx" && member in Get(famplex, x.dbId)
    ensures Entry(x.modulation, "protein", "hgnc", member.0, member.1) in Get(XrefsTable(xs, famplex), x.chebiId)
  {
    var members := Get(famplex, x.dbId);
    var k :| 0 <= k < |members| && members[k] == member;
    assert XrefEntries(x, famplex)[k + 1] == Entry(x.modulation, "protein", "hgnc", member.0, member.1);
    XrefsTableSpec(xs, famplex, x.chebiId, Entry(x.modulation, "protein", "hgnc", member.0, member.1));
  }

  function WithChild(t: (string, string, string), e: Entry): Xref {
    Xref(t.0, t.1, e.modulation, e.targetType, e.targetDb, e.targetId, e.targetName)
  }

  function TripleRows(t: (string, string, string), es: seq<Entry>): seq<Xref> {
    seq(|es|, k requires 0 <= k < |es| => WithChild(t, es[k]))
  }

  /** Every `(child, name)` joined with every entry of its role. */
  function JoinRoles(triples: seq<(string, string, string)>, table: map<string, seq<Entry>>): seq<Xref> {
    if triples == [] then []
    else TripleRows(triples[0], Get(table, triples[0].2)) + JoinRoles(triples[1..], table)
  }

  lemma {:induction false} JoinRolesSpec(triples: seq<(string, string, string)>, table: map<string, seq<Entry>>, row: Xref)
    ensures row in JoinRoles(triples, table) <==>
              exists t, e :: t in triples && e in Get(table, t.2) && row == WithChild(t, e)
  {
    if triples != [] {
      JoinRolesSpec(triples[1..], table, row);
      var t0 := triples[0];
      var es := Get(table, t0.2);
      if row in TripleRows(t0, es) {
        var k :| 0 <= k < |es| && TripleRows(t0, es)[k] == row;
        assert es[k] in es;
      }
      if exists e :: e in es && row == WithChild(t0, e) {
        var e :| e in es && row == WithChild(t0, e);
        var k :| 0 <= k < |es| && es[k] == e;
        assert TripleRows(t0, es)[k] == row;
      }
      assert forall t :: t in triples <==> t == t0 || t in triples[1..];
    }
  }

  /** `get_relations_df(graph)`: every ChEBI term with an edge into a
      curated role and that role among its `has_role` relationships,
      joined with every entry filed under the role. */
  function LegacyRelations(g: ChebiGraph, xs: seq<Xref>, rels: seq<FamplexRelation>,
                           symbolToId: map<string, string>): Result<seq<Xref>> {
    var ids := seq(|xs|, k requires 0 <= k < |xs| => xs[k].chebiId);
    match IterateRoles(g, ids)
    case Failure(e) => Failure(e)
    case Success(triples) => Success(JoinRoles(triples, XrefsTable(xs, LegacyFamplexMembers(rels, symbolToId))))
  }

  /** An inferred relation joins a term that has a curated role with one
      of the entries curated for that role. */
  lemma LegacyRelationOrigin(g: ChebiGraph, xs: seq<Xref>, rels: seq<FamplexRelation>,
                             symbolToId: map<string, string>, row: Xref)
    requires LegacyRelations(g, xs, rels, symbolToId).Success?
    requires row in LegacyRelations(g, xs, rels, symbolToId).value
    ensures exists x, role, e :: (x in xs && x.chebiId == role && HasRole(g, row.chebiId, role)
              && (exists i :: i in xs && row.chebiId in g.inEdges(i.chebiId))
              && e in XrefEntries(x, LegacyFamplexMembers(rels, symbolToId))
              && row.chebiName == g.name(row.chebiId)
              && Entry(row.modulation, row.entityType, row.db, row.dbId, row.dbName) == e)
  {
    var ids := seq(|xs|, k requires 0 <= k < |xs| => xs[k].chebiId);
    var famplex := LegacyFamplexMembers(rels, symbolToId);
    var table := XrefsTable(xs, famplex);
    var triples := IterateRoles(g, ids).value;
    JoinRolesSpec(triples, table, row);
    var t, e :| t in triples && e in Get(table, t.2) && row == WithChild(t, e);
    IterateRolesSpec(g, ids, t);
    var i :| i in ids && t.0 in g.inEdges(i);
    var j :| 0 <= j < |ids| && ids[j] == i;
    assert xs[j] in xs && xs[j].chebiId == i;
    XrefsTableSpec(xs, famplex, t.2, e);
    var x :| x in xs && x.chebiId == t.2 && e in XrefEntries(x, famplex);
  }

  // ---------------------------------------------------------------- main

  /** The sort columns of the final table: (modulation, entity_type,
      chebi_id, chebi_name, db, db_id, db_name). */
  function MainKey(x: Xref): seq<string> {
    [x.modulation, x.entityType, x.chebiId, x.chebiName, x.db, x.dbId, x.dbName]
  }

  lemma MainKeyInjective()
    ensures forall x, y :: MainKey(x) == MainKey(y) ==> x == y
  {
    forall x, y | MainKey(x) == MainKey(y) ensures x == y {
      assert MainKey(x)[0] == MainKey(y)[0] && MainKey(x)[1] == MainKey(y)[1];
      assert MainKey(x)[2] == MainKey(y)[2] && MainKey(x)[3] == MainKey(y)[3];
      assert MainKey(x)[4] == MainKey(y)[4] && MainKey(x)[5] == MainKey(y)[5];
      assert MainKey(x)[6] == MainKey(y)[6];
    }
  }

  /** `pd.concat([relations_df, enzyme_inhibitor_df]).drop_duplicates()`
      sorted on all seven columns: every distinct row of either frame once,
      in strictly increasing order. */
  function MainTable(relations: seq<Xref>, enzymes: seq<Xref>): (t: seq<Xref>)
    ensures StrictlySortedBy(t, MainKey)
    ensures forall x :: x in t <==> x in relations || x in enzymes
  {
    MainKeyInjective();
    DedupThenSort(relations + enzymes, MainKey)
  }
}

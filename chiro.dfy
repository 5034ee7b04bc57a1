/** The CHIRO importer of `chiro/import_chiro.py`: every annotated node of
    the CHIRO graph names a chemical and its first relationship string,
    `"<relation>_of <target curie>"`; the chemical's ChEBI name and the
    target's name are looked up, and the resulting rows are written in
    sorted order. */
module Chiro {

  import opened Wrappers
  import opened Text
  import opened Order

  /** The namespaces whose name maps are loaded; a target in any other
      namespace raises `KeyError`. */
  const MappingPrefixes: seq<string> := ["ncbitaxon", "go", "pr", "hp", "mp"]

  /** A node of the CHIRO graph: its identifier and its data, where the
      `relationship` entry lists the node's relationship strings. */
  datatype Node = Node(id: string, data: map<string, seq<string>>)

  /** `('chebi', h, h_name, r, t_namespace, t, t_name)`. */
  datatype ImportRow = ImportRow(
    sourceDb: string, chemical: string, chemicalName: string, relation: string,
    namespace: string, target: string, targetName: string)

  function RowKey(row: ImportRow): seq<string> {
    [row.sourceDb, row.chemical, row.chemicalName, row.relation, row.namespace, row.target, row.targetName]
  }

  /** The name maps of the loaded namespaces, each fetched through `idNames`. */
  function Mappings(idNames: string -> map<string, string>): (m: map<string, map<string, string>>)
    ensures forall p :: p in m <==> p in MappingPrefixes
    ensures forall p :: p in m ==> m[p] == idNames(p)
  {
    map p | p in MappingPrefixes :: idNames(p)
  }

  /** `t.split(':')[0].lower()`: the lower-cased text before the first colon. */
  function Namespace(t: string): (ns: string)
    ensures ':' !in ns
  {
    var head := SplitOn(t, ":")[0];
    forall k | 0 <= k < |head| ensures head[k] != ':' {
      assert head[k..k + 1] == [head[k]];
      assert !OccursAt(head, ":", k);
    }
    var ns := Lower(head);
    assert forall k :: 0 <= k < |ns| ==> ns[k] != ':' by {
      forall k | 0 <= k < |ns| ensures ns[k] != ':' {
        assert head[k] != ':';
      }
    }
    ns
  }

  /** What one node contributes: nothing for a node without data, for an
      unknown chemical or for an unknown target; the exception for a node
      without relationships, a relationship string that is not two words,
      or a namespace whose names were not loaded. Only the first
      relationship string is read; the relation loses its last three
      characters (the `_of`). */
  function NodeRow(node: Node, chebi: map<string, string>, mappings: map<string, map<string, string>>)
    : (r: Result<Option<ImportRow>>)
  {
    if node.data == map[] then Success(None)
    else if "relationship" !in node.data then Failure(KeyError("relationship"))
    else if node.data["relationship"] == [] then Failure(IndexError("list index out of range"))
    else
      var words := SplitWhitespace(node.data["relationship"][0]);
      if |words| < 2 then Failure(ValueError("not enough values to unpack"))
      else if |words| > 2 then Failure(ValueError("too many values to unpack"))
      else
        var relation := CutLast(words[0], |"_of"|);
        var t := words[1];
        if node.id !in chebi then Success(None)
        else
          var ns := Namespace(t);
          if ns !in mappings then Failure(KeyError(ns))
          else if t !in mappings[ns] then Success(None)
          else Success(Some(ImportRow("chebi", node.id, chebi[node.id], relation, ns, t, mappings[ns][t])))
  }

  /** The values `f` gives for `xs`, in order, the items it gives none
      for skipped, or the first exception it raises. */
  function CollectAll<A, B>(xs: seq<A>, f: A -> Result<Option<B>>): Result<seq<B>> {
    if xs == [] then Success([])
    else
      match CollectAll(xs[..|xs| - 1], f)
      case Failure(e) => Failure(e)
      case Success(ys) =>
        match f(xs[|xs| - 1])
        case Failure(e) => Failure(e)
        case Success(None) => Success(ys)
        case Success(Some(y)) => Success(ys + [y])
  }

  function RowOf(chebi: map<string, string>, mappings: map<string, map<string, string>>)
    : Node -> Result<Option<ImportRow>>
  {
    (node: Node) => NodeRow(node, chebi, mappings)
  }

  /** The rows collected from `nodes`, in node order, or the first exception. */
  function Collect(nodes: seq<Node>, chebi: map<string, string>, mappings: map<string, map<string, string>>)
    : Result<seq<ImportRow>>
  {
    CollectAll(nodes, RowOf(chebi, mappings))
  }

  /** What `main` writes below the header: the collected rows, sorted. */
  function Imported(nodes: seq<Node>, chebi: map<string, string>, mappings: map<string, map<string, string>>)
    : Result<seq<ImportRow>>
  {
    match Collect(nodes, chebi, mappings)
    case Failure(e) => Failure(e)
    case Success(rows) => Success(SortBy(rows, RowKey))
  }

  lemma {:induction false} CollectAllStep<A, B>(xs: seq<A>, i: nat, f: A -> Result<Option<B>>)
    requires i < |xs|
    ensures CollectAll(xs[..i + 1], f) ==
              match CollectAll(xs[..i], f)
              case Failure(e) => Failure(e)
              case Success(ys) =>
                match f(xs[i])
                case Failure(e) => Failure(e)
                case Success(None) => Success(ys)
                case Success(Some(y)) => Success(ys + [y])
  {
    assert xs[..i + 1][..i] == xs[..i];
  }

  /** Once a prefix raises, so does the whole sequence. */
  lemma {:induction false} CollectAllFailurePersists<A, B>(xs: seq<A>, i: nat, f: A -> Result<Option<B>>)
    requires i <= |xs| && CollectAll(xs[..i], f).Failure?
    ensures CollectAll(xs, f) == CollectAll(xs[..i], f)
    decreases |xs| - i
  {
    if i < |xs| {
      CollectAllStep(xs, i, f);
      CollectAllFailurePersists(xs, i + 1, f);
    } else {
      assert xs[..i] == xs;
    }
  }

  /** The fold raises exactly when some item raises, with the exception of
      the first such item. */
  lemma {:induction false} CollectAllFailure<A, B>(xs: seq<A>, f: A -> Result<Option<B>>)
    ensures CollectAll(xs, f).Failure? <==> exists i :: 0 <= i < |xs| && f(xs[i]).Failure?
    ensures CollectAll(xs, f).Failure? ==>
              exists i :: && 0 <= i < |xs| && f(xs[i]).Failure? && CollectAll(xs, f).error == f(xs[i]).error
                          && forall j :: 0 <= j < i ==> f(xs[j]).Success?
  {
    if xs != [] {
      var init := xs[..|xs| - 1];
      CollectAllFailure(init, f);
      assert forall i :: 0 <= i < |init| ==> init[i] == xs[i];
    }
  }

  /** Without an exception the values are those the items give, at most
      one per item. */
  lemma {:induction false} CollectAllValues<A, B>(xs: seq<A>, f: A -> Result<Option<B>>)
    requires CollectAll(xs, f).Success?
    ensures forall y :: y in CollectAll(xs, f).value <==> exists i :: 0 <= i < |xs| && f(xs[i]) == Success(Some(y))
    ensures |CollectAll(xs, f).value| <= |xs|
  {
    if xs != [] {
      var init := xs[..|xs| - 1];
      assert CollectAll(init, f).Success?;
      CollectAllValues(init, f);
      assert forall i :: 0 <= i < |init| ==> init[i] == xs[i];
      forall y
        ensures y in CollectAll(xs, f).value <==> exists i :: 0 <= i < |xs| && f(xs[i]) == Success(Some(y))
      {
        if exists i :: 0 <= i < |xs| && f(xs[i]) == Success(Some(y)) {
          var i :| 0 <= i < |xs| && f(xs[i]) == Success(Some(y));
          if i < |init| {
            assert f(init[i]) == Success(Some(y));
          }
        }
      }
    }
  }

  /** `main`: the triple-building loop over the graph's nodes, then the
      sort. Fetching the graph and the name maps is done by the caller;
      `idNames(prefix)` is the name map of a namespace. */
  method ImportChiro(nodes: seq<Node>, chebi: map<string, string>, idNames: string -> map<string, string>)
    returns (r: Result<seq<ImportRow>>)
    ensures r == Imported(nodes, chebi, Mappings(idNames))
  {
    var mappings := Mappings(idNames);
    var triples: seq<ImportRow> := [];
    for i := 0 to |nodes|
      invariant Collect(nodes[..i], chebi, mappings) == Success(triples)
    {
      CollectAllStep(nodes, i, RowOf(chebi, mappings));
      var node := nodes[i];
      if node.data == map[] {
        continue;
      }
      if "relationship" !in node.data {
        CollectAllFailurePersists(nodes, i + 1, RowOf(chebi, mappings));
        return Failure(KeyError("relationship"));
      }
      var relationships := node.data["relationship"];
      if relationships == [] {
        CollectAllFailurePersists(nodes, i + 1, RowOf(chebi, mappings));
        return Failure(IndexError("list index out of range"));
      }
      var words := SplitWhitespace(relationships[0]);
      if |words| != 2 {
        CollectAllFailurePersists(nodes, i + 1, RowOf(chebi, mappings));
        return Failure(ValueError(if |words| < 2 then "not enough values to unpack" else "too many values to unpack"));
      }
      var relation := CutLast(words[0], |"_of"|);
      var t := words[1];
      if node.id !in chebi {
        continue;
      }
      var chemicalName := chebi[node.id];
      var namespace := Namespace(t);
      if namespace !in mappings {
        CollectAllFailurePersists(nodes, i + 1, RowOf(chebi, mappings));
        return Failure(KeyError(namespace));
      }
      var names := mappings[namespace];
      if t !in names {
        continue;
      }
      triples := triples + [ImportRow("chebi", node.id, chemicalName, relation, namespace, t, names[t])];
    }
    assert nodes[..|nodes|] == nodes;
    r := Success(SortBy(triples, RowKey));
  }

  // ---------------------------------------------------------------- properties

  /** A row comes from a node with data whose first relationship string is
      `<relation>_of <target>`: the relation with its `_of` dropped, the
      chemical's ChEBI name, the target's lower-cased namespace, which is a
      loaded one, and the target's name looked up by the full curie. */
  lemma NodeRowShape(node: Node, chebi: map<string, string>, idNames: string -> map<string, string>)
    requires NodeRow(node, chebi, Mappings(idNames)).Success? && NodeRow(node, chebi, Mappings(idNames)).value.Some?
    ensures var row := NodeRow(node, chebi, Mappings(idNames)).value.value;
            var words := SplitWhitespace(node.data["relationship"][0]);
            && "relationship" in node.data && node.data["relationship"] != []
            && |words| == 2
            && (EndsWith(words[0], "_of") ==> row.relation + "_of" == words[0])
            && row.sourceDb == "chebi" && row.chemical == node.id
            && node.id in chebi && row.chemicalName == chebi[node.id]
            && row.target == words[1] && row.namespace == Namespace(words[1])
            && row.namespace in MappingPrefixes && ':' !in row.namespace
            && row.target in idNames(row.namespace) && row.targetName == idNames(row.namespace)[row.target]
  {
  }

  /** Which nodes raise: a node with data but no relationship entry, an
      empty relationship list, a first relationship string that is not two
      words, or, for a known chemical only, a target outside the loaded
      namespaces. */
  lemma NodeRowFailures(node: Node, chebi: map<string, string>, idNames: string -> map<string, string>)
    ensures NodeRow(node, chebi, Mappings(idNames)).Failure? <==>
              && node.data != map[]
              && ("relationship" in node.data ==>
                    node.data["relationship"] != [] ==>
                    (|SplitWhitespace(node.data["relationship"][0])| == 2 ==>
                          node.id in chebi && Namespace(SplitWhitespace(node.data["relationship"][0])[1]) !in MappingPrefixes))
  {
    if node.data != map[] && "relationship" in node.data && node.data["relationship"] != [] {
      var words := SplitWhitespace(node.data["relationship"][0]);
      if |words| == 2 {
        var ns := Namespace(words[1]);
        assert ns in Mappings(idNames) <==> ns in MappingPrefixes;
      }
    }
  }

  /** An unknown chemical is skipped before its target is looked at, so
      its target's namespace cannot raise. */
  lemma UnknownChemicalSkipped(node: Node, chebi: map<string, string>, idNames: string -> map<string, string>)
    requires node.data != map[] && "relationship" in node.data && node.data["relationship"] != []
    requires |SplitWhitespace(node.data["relationship"][0])| == 2
    requires node.id !in chebi
    ensures NodeRow(node, chebi, Mappings(idNames)) == Success(None)
  {
  }

  /** Importing fails exactly when some node raises, with the exception of
      the first such node; otherwise the rows are those of the nodes, each
      node contributing at most one, in node order. */
  lemma CollectSpec(nodes: seq<Node>, chebi: map<string, string>, mappings: map<string, map<string, string>>)
    ensures Collect(nodes, chebi, mappings).Failure? <==>
              exists i :: 0 <= i < |nodes| && NodeRow(nodes[i], chebi, mappings).Failure?
    ensures Collect(nodes, chebi, mappings).Failure? ==>
              exists i :: && 0 <= i < |nodes| && NodeRow(nodes[i], chebi, mappings).Failure?
                          && Collect(nodes, chebi, mappings).error == NodeRow(nodes[i], chebi, mappings).error
                          && forall j :: 0 <= j < i ==> NodeRow(nodes[j], chebi, mappings).Success?
    ensures Collect(nodes, chebi, mappings).Success? ==>
              forall row :: row in Collect(nodes, chebi, mappings).value <==>
                exists i :: 0 <= i < |nodes| && NodeRow(nodes[i], chebi, mappings) == Success(Some(row))
    ensures Collect(nodes, chebi, mappings).Success? ==> |Collect(nodes, chebi, mappings).value| <= |nodes|
  {
    CollectAllFailure(nodes, RowOf(chebi, mappings));
    if Collect(nodes, chebi, mappings).Success? {
      CollectAllValues(nodes, RowOf(chebi, mappings));
    }
  }

  /** The written rows are the collected rows, sorted on all seven columns,
      none lost or added. */
  lemma ImportedSorted(nodes: seq<Node>, chebi: map<string, string>, mappings: map<string, map<string, string>>)
    ensures Imported(nodes, chebi, mappings).Failure? <==> Collect(nodes, chebi, mappings).Failure?
    ensures Imported(nodes, chebi, mappings).Success? ==>
              && SortedBy(Imported(nodes, chebi, mappings).value, RowKey)
              && multiset(Imported(nodes, chebi, mappings).value) == multiset(Collect(nodes, chebi, mappings).value)
  {
  }
}

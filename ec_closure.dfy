/** `get_expasy_closure`: the ExPASy enzyme classification as a directed
    graph (child class -> parent class, member protein -> class), and for
    every enzyme class the list of graph nodes that reach it, i.e. its
    narrower classes and the proteins filed under it. */
module ExpasyClosure {

  import opened Order

  /** A graph node `(prefix, identifier, name)`. Class nodes carry their
      identifier as their name. */
  datatype Node = Node(db: string, id: string, name: string)

  datatype Reference = Reference(prefix: string, identifier: string, name: string)

  /** One ExPASy term: its is-a parents and its `has_member` references. */
  datatype Term = Term(prefix: string, identifier: string, parents: seq<Reference>, members: seq<Reference>)

  type Edge = (Node, Node)

  function ClassNode(prefix: string, identifier: string): Node {
    Node(prefix, identifier, identifier)
  }

  /** The edges one term contributes: to each parent, and from each member. */
  function TermEdges(t: Term): set<Edge> {
    (set p | p in t.parents :: (ClassNode(t.prefix, t.identifier), ClassNode(p.prefix, p.identifier)))
    + (set m | m in t.members :: (Node(m.prefix, m.identifier, m.name), ClassNode(t.prefix, t.identifier)))
  }

  function Edges(terms: seq<Term>): set<Edge> {
    if terms == [] then {} else Edges(terms[..|terms| - 1]) + TermEdges(terms[|terms| - 1])
  }

  /** The graph's nodes: exactly the endpoints of its edges. */
  function NodesOf(edges: set<Edge>): set<Node> {
    (set e | e in edges :: e.0) + (set e | e in edges :: e.1)
  }

  /** The graph built by the `add_edge` loops over every term. */
  method BuildGraph(terms: seq<Term>) returns (edges: set<Edge>)
    ensures edges == Edges(terms)
    ensures forall t, p :: t in terms && p in t.parents ==>
              (ClassNode(t.prefix, t.identifier), ClassNode(p.prefix, p.identifier)) in edges
    ensures forall t, m :: t in terms && m in t.members ==>
              (Node(m.prefix, m.identifier, m.name), ClassNode(t.prefix, t.identifier)) in edges
  {
    edges := {};
    for i := 0 to |terms|
      invariant edges == Edges(terms[..i])
    {
      var t := terms[i];
      var added: set<Edge> := {};
      for j := 0 to |t.parents|
        invariant added == set p | p in t.parents[..j] :: (ClassNode(t.prefix, t.identifier), ClassNode(p.prefix, p.identifier))
      {
        var p := t.parents[j];
        added := added + {(ClassNode(t.prefix, t.identifier), ClassNode(p.prefix, p.identifier))};
        assert t.parents[..j + 1] == t.parents[..j] + [p];
      }
      assert t.parents[..|t.parents|] == t.parents;
      for j := 0 to |t.members|
        invariant added == (set p | p in t.parents :: (ClassNode(t.prefix, t.identifier), ClassNode(p.prefix, p.identifier)))
                           + (set m | m in t.members[..j] :: (Node(m.prefix, m.identifier, m.name), ClassNode(t.prefix, t.identifier)))
      {
        var m := t.members[j];
        added := added + {(Node(m.prefix, m.identifier, m.name), ClassNode(t.prefix, t.identifier))};
        assert t.members[..j + 1] == t.members[..j] + [m];
      }
      assert t.members[..|t.members|] == t.members;
      edges := edges + added;
      assert terms[..i + 1][..i] == terms[..i];
    }
    assert terms[..|terms|] == terms;
    EdgesContain(terms);
  }

  lemma {:induction false} EdgesContain(terms: seq<Term>)
    ensures forall t, e :: t in terms && e in TermEdges(t) ==> e in Edges(terms)
  {
    if terms != [] {
      EdgesContain(terms[..|terms| - 1]);
      forall t, e | t in terms && e in TermEdges(t) ensures e in Edges(terms) {
        if t != terms[|terms| - 1] {
          assert t in terms[..|terms| - 1];
        }
      }
    }
  }

  /** `p` is a walk of at least one edge. */
  ghost predicate IsPath(edges: set<Edge>, p: seq<Node>) {
    |p| >= 2 && forall i :: 0 <= i < |p| - 1 ==> (p[i], p[i + 1]) in edges
  }

  ghost predicate Reaches(edges: set<Edge>, u: Node, v: Node) {
    exists p :: IsPath(edges, p) && p[0] == u && p[|p| - 1] == v
  }

  /** `nx.ancestors(graph, v)`: every node with a path to `v`, without `v`. */
  ghost function Ancestors(edges: set<Edge>, v: Node): set<Node> {
    set u | u in NodesOf(edges) && u != v && Reaches(edges, u, v)
  }

  function Preds(edges: set<Edge>, v: Node): set<Node> {
    set e | e in edges && e.1 == v :: e.0
  }

  lemma EdgeReaches(edges: set<Edge>, u: Node, v: Node)
    requires (u, v) in edges
    ensures Reaches(edges, u, v)
  {
    assert IsPath(edges, [u, v]);
  }

  lemma PrependEdge(edges: set<Edge>, u: Node, w: Node, v: Node)
    requires (u, w) in edges && Reaches(edges, w, v)
    ensures Reaches(edges, u, v)
  {
    var p :| IsPath(edges, p) && p[0] == w && p[|p| - 1] == v;
    var q := [u] + p;
    assert forall i :: 1 <= i < |q| - 1 ==> q[i] == p[i - 1] && q[i + 1] == p[i];
    assert IsPath(edges, q);
  }

  /** A set that holds `v`'s predecessors and is closed under taking
      predecessors holds every node that reaches `v`. */
  lemma {:induction false} ClosedSetHoldsAncestors(edges: set<Edge>, v: Node, s: set<Node>, u: Node)
    requires Preds(edges, v) <= s
    requires forall x, y :: x in s && (y, x) in edges ==> y in s
    requires Reaches(edges, u, v)
    ensures u in s
  {
    var p :| IsPath(edges, p) && p[0] == u && p[|p| - 1] == v;
    var i := |p| - 2;
    assert (p[i], p[i + 1]) in edges;
    assert p[i] in Preds(edges, v);
    while i > 0
      invariant 0 <= i <= |p| - 2
      invariant p[i] in s
    {
      assert (p[i - 1], p[i]) in edges;
      i := i - 1;
    }
  }

  /** What the worklist search keeps true: everything seen or queued reaches
      `v`, `v`'s predecessors are seen or queued, and every predecessor of a
      seen node is seen or queued. */
  ghost predicate SearchInv(edges: set<Edge>, v: Node, seen: set<Node>, todo: set<Node>) {
    && seen <= NodesOf(edges) && todo <= NodesOf(edges)
    && (forall u :: u in seen + todo ==> Reaches(edges, u, v))
    && Preds(edges, v) <= seen + todo
    && (forall x, y :: x in seen && (y, x) in edges ==> y in seen + todo)
  }

  lemma SearchStart(edges: set<Edge>, v: Node)
    ensures SearchInv(edges, v, {}, Preds(edges, v))
  {
    forall u | u in Preds(edges, v) ensures Reaches(edges, u, v) { EdgeReaches(edges, u, v); }
  }

  lemma SearchStep(edges: set<Edge>, v: Node, seen: set<Node>, todo: set<Node>, u: Node)
    requires SearchInv(edges, v, seen, todo) && u in todo && u !in seen
    ensures SearchInv(edges, v, seen + {u}, (todo - {u}) + (Preds(edges, u) - seen))
  {
    var more := Preds(edges, u) - seen;
    forall y | y in more ensures Reaches(edges, y, v) { PrependEdge(edges, y, u, v); }
  }

  lemma SearchDone(edges: set<Edge>, v: Node, seen: set<Node>)
    requires SearchInv(edges, v, seen, {})
    ensures seen - {v} == Ancestors(edges, v)
  {
    forall u | u in Ancestors(edges, v) ensures u in seen {
      ClosedSetHoldsAncestors(edges, v, seen, u);
    }
  }

  /** The worklist search behind `nx.ancestors`. */
  method AncestorsOf(edges: set<Edge>, v: Node) returns (anc: set<Node>)
    ensures anc == Ancestors(edges, v)
  {
    var seen: set<Node> := {};
    var todo := Preds(edges, v);
    SearchStart(edges, v);
    while todo != {}
      invariant SearchInv(edges, v, seen, todo)
      decreases |NodesOf(edges) - seen|, |todo|
    {
      var u :| u in todo;
      if u in seen {
        todo := todo - {u};
      } else {
        SearchStep(edges, v, seen, todo, u);
        assert NodesOf(edges) - (seen + {u}) < NodesOf(edges) - seen;
        todo := (todo - {u}) + (Preds(edges, u) - seen);
        seen := seen + {u};
      }
    }
    SearchDone(edges, v, seen);
    anc := seen - {v};
  }

  /** Lists the elements of a finite set, each once. */
  method ListOf(s: set<Node>) returns (list: seq<Node>)
    ensures forall n :: n in list <==> n in s
    ensures Distinct(list)
  {
    list := [];
    var rest := s;
    while rest != {}
      invariant rest <= s
      invariant forall n :: n in list <==> n in s - rest
      invariant Distinct(list)
    {
      var n :| n in rest;
      DistinctAppend(list, n);
      list := list + [n];
      rest := rest - {n};
    }
  }

  /** `get_expasy_closure`: the graph, and for every node of the graph in the
      ontology's own namespace, keyed by its identifier, the list of its
      ancestors in the graph (when two nodes share an identifier the
      source's dictionary keeps one of them). */
  method GetExpasyClosure(terms: seq<Term>, ontology: string)
    returns (edges: set<Edge>, closure: map<string, seq<Node>>)
    ensures edges == Edges(terms)
    ensures forall id :: id in closure <==>
              exists n :: n in NodesOf(edges) && n.db == ontology && n.id == id
    ensures forall id :: id in closure ==> Distinct(closure[id])
    ensures forall id :: id in closure ==>
              exists n :: n in NodesOf(edges) && n.db == ontology && n.id == id
                && (forall m :: m in closure[id] <==> m in Ancestors(edges, n))
  {
    edges := BuildGraph(terms);
    var classes := set n | n in NodesOf(edges) && n.db == ontology;
    closure := map[];
    var rest := classes;
    while rest != {}
      invariant rest <= classes
      invariant forall id :: id in closure <==> exists n :: n in classes - rest && n.id == id
      invariant forall id :: id in closure ==> Distinct(closure[id])
      invariant forall id :: id in closure ==>
                  exists n :: n in classes && n.id == id
                    && (forall m :: m in closure[id] <==> m in Ancestors(edges, n))
    {
      var n :| n in rest;
      var anc := AncestorsOf(edges, n);
      var list := ListOf(anc);
      closure := closure[n.id := list];
      rest := rest - {n};
    }
  }

  /** Under the shape of the ExPASy data, where every node in the ontology's
      namespace is a class node named by its identifier, no class is listed
      in its own closure. */
  lemma ClosureExcludesClass(edges: set<Edge>, closure: map<string, seq<Node>>, ontology: string, id: string)
    requires forall n :: n in NodesOf(edges) && n.db == ontology ==> n.name == n.id
    requires id in closure
    requires exists n :: n in NodesOf(edges) && n.db == ontology && n.id == id
               && (forall m :: m in closure[id] <==> m in Ancestors(edges, n))
    ensures ClassNode(ontology, id) !in closure[id]
  {
    var n :| n in NodesOf(edges) && n.db == ontology && n.id == id
               && (forall m :: m in closure[id] <==> m in Ancestors(edges, n));
    assert n == ClassNode(ontology, id);
  }
}

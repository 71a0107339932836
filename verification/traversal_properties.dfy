/** What the traversal guarantees about its output, beyond "append only".

    - Anchoring: every edge produced by a call hangs off that call's display
      subject or off the target of an edge produced earlier by the same call,
      so every edge is reachable from the class the user asked about. The
      edges need not form a tree: a restriction back to a visited class still
      adds its edge, so a class can have several incoming edges or an edge to
      itself. Every edge's property is an `owl:onProperty` value of the graph
      and its target an `owl:onClass`, `owl:allValuesFrom` or collection item
      of it.
    Restriction priority, union fan-out and the marking rule are in
    `TraversalRules`.
 */
module TraversalProperties {
  import opened Wrappers
  import opened Rdf
  import RdfList
  import opened Traversal

  /** Every edge from index `from` on has `root` as display subject or the
      target of an earlier edge from `from` on. */
  ghost predicate Anchored(edges: seq<Edge>, from: nat, root: Term) {
    forall i :: from <= i < |edges| ==>
      edges[i].display == root || exists j :: from <= j < i && edges[j].target == edges[i].display
  }

  /** Some triple of `g` has predicate `p` and object `o`. */
  ghost predicate ObjectOf(g: Graph, p: Term, o: Term) {
    exists k :: 0 <= k < |g| && g[k].p == p && g[k].o == o
  }

  /** The edge's property is an `owl:onProperty` value of `g`, and its target
      an `owl:onClass` or `owl:allValuesFrom` value or a collection item. */
  ghost predicate Grounded(g: Graph, e: Edge) {
    && ObjectOf(g, OwlOnProperty, e.property)
    && (ObjectOf(g, OwlOnClass, e.target) || ObjectOf(g, OwlAllValuesFrom, e.target) || ObjectOf(g, RdfFirst, e.target))
  }

  /** The edges a call appended, from index `from` on, are anchored at `root`
      and grounded in `g`. */
  ghost predicate Produced(g: Graph, edges: seq<Edge>, from: nat, root: Term) {
    && from <= |edges|
    && Anchored(edges, from, root)
    && (forall i :: from <= i < |edges| ==> Grounded(g, edges[i]))
  }

  /** Two stretches of production compose: the second may be rooted at the
      first's root or at the target of an edge of the first. */
  lemma ProducedExtend(g: Graph, e1: seq<Edge>, e2: seq<Edge>, a: nat, root: Term, x: Term)
    requires e1 <= e2
    requires Produced(g, e1, a, root) && Produced(g, e2, |e1|, x)
    requires x == root || exists k :: a <= k < |e1| && e1[k].target == x
    ensures Produced(g, e2, a, root)
  {
    forall i | a <= i < |e2|
      ensures e2[i].display == root || exists j :: a <= j < i && e2[j].target == e2[i].display
    {
      if i < |e1| {
        assert e2[i] == e1[i];
        if e1[i].display != root {
          var j :| a <= j < i && e1[j].target == e1[i].display;
          assert e2[j] == e1[j];
        }
      } else if e2[i].display != x {
        var j :| |e1| <= j < i && e2[j].target == e2[i].display;
      } else if x != root {
        var k :| a <= k < |e1| && e1[k].target == x;
        assert e2[k] == e1[k];
      }
    }
    forall i | a <= i < |e2|
      ensures Grounded(g, e2[i])
    {
      if i < |e1| {
        assert e2[i] == e1[i];
      }
    }
  }

  /** A triple's object is an object of `g` for that predicate. */
  lemma ObjectsAreObjectOf(g: Graph, s: Term, p: Term, o: Term)
    requires o in Objects(g, s, p)
    ensures ObjectOf(g, p, o)
  {
    var k :| 0 <= k < |g| && g[k] == Triple(s, p, o);
  }

  /** The items of a decoded collection are `rdf:first` values of `g`. */
  lemma DecodedItemsAreFirsts(g: Graph, head: Term, fuel: nat)
    requires RdfList.Decode(g, head, [], fuel).Ok?
    ensures forall x :: x in RdfList.Decode(g, head, [], fuel).value ==> ObjectOf(g, RdfFirst, x)
  {
    var nodes, items := RdfList.DecodeSound(g, head, [], fuel);
    assert [] + items == items;
    ChainItemsAreFirsts(g, nodes, items);
  }

  /** The items along a chain of collection nodes are `rdf:first` values. */
  lemma ChainItemsAreFirsts(g: Graph, nodes: seq<Term>, items: seq<Term>)
    requires RdfList.Chain(g, nodes, items)
    ensures forall x :: x in items ==> ObjectOf(g, RdfFirst, x)
  {
    forall x | x in items
      ensures ObjectOf(g, RdfFirst, x)
    {
      var i :| 0 <= i < |items| && items[i] == x;
      LinkItemIsFirst(g, nodes[i], x, nodes[i + 1]);
    }
  }

  /** The item of a collection node is one of its `rdf:first` values. */
  lemma LinkItemIsFirst(g: Graph, node: Term, item: Term, next: Term)
    requires RdfList.Link(g, node, item, next)
    ensures ObjectOf(g, RdfFirst, item)
  {
    ObjectsAreObjectOf(g, node, RdfFirst, item);
  }

  /** A restriction's property is an `owl:onProperty` value of `g`. */
  lemma PropertyIsOnProperty(g: Graph, r: Term)
    requires Objects(g, r, OwlOnProperty) != []
    ensures ObjectOf(g, OwlOnProperty, Last(Objects(g, r, OwlOnProperty)))
  {
    ObjectsAreObjectOf(g, r, OwlOnProperty, Last(Objects(g, r, OwlOnProperty)));
  }

  // ---------------------------------------------------------------------
  // Anchoring, by induction along the mutual recursion.

  /** The edges `graph_traversal` appends hang off its display subject. */
  lemma {:induction false} TraverseProduces(g: Graph, term: Term, display: Term, st: State, fuel: nat)
    requires Traverse(g, term, display, st, fuel).Ok?
    ensures Produced(g, Traverse(g, term, display, st, fuel).value.edges, |st.edges|, display)
    decreases fuel, 0, 0
  {
    if term !in st.visited {
      IterateProduces(g, term, display, TriplesOf(g, term), st, fuel - 1);
    }
  }

  lemma {:induction false} IterateProduces(g: Graph, term: Term, display: Term, ts: seq<Triple>, st: State, fuel: nat)
    requires Iterate(g, term, display, ts, st, fuel).Ok?
    ensures Produced(g, Iterate(g, term, display, ts, st, fuel).value.edges, |st.edges|, display)
    decreases fuel, 3, |ts|
  {
    if ts != [] {
      var it := Dispatch(g, term, display, ts[0], st, fuel).value;
      DispatchProduces(g, term, display, ts[0], st, fuel);
      var next := if it.marked then it.state.(visited := it.state.visited + {term}) else it.state;
      IterateProduces(g, term, display, ts[1..], next, fuel);
      ProducedExtend(g, it.state.edges, Iterate(g, term, display, ts, st, fuel).value.edges, |st.edges|, display, display);
    }
  }

  lemma {:induction false} DispatchProduces(g: Graph, term: Term, display: Term, t: Triple, st: State, fuel: nat)
    requires Dispatch(g, term, display, t, st, fuel).Ok?
    ensures Produced(g, Dispatch(g, term, display, t, st, fuel).value.state.edges, |st.edges|, display)
    decreases fuel, 2, 0
  {
    if t.p == OwlEquivalentClass {
      TraverseProduces(g, t.o, display, st, fuel);
    } else if t.p == OwlIntersectionOf {
      var members := RdfList.Decode(g, t.o, [], fuel).value;
      EachProduces(g, members, display, st, fuel);
    } else if Triple(t.s, RdfType, OwlRestriction) in g && t.s !in st.visited {
      RestrictionProduces(g, t.s, display, st, fuel);
    }
  }

  lemma {:induction false} RestrictionProduces(g: Graph, r: Term, display: Term, st: State, fuel: nat)
    requires Restriction(g, r, display, st, fuel).Ok?
    ensures Produced(g, Restriction(g, r, display, st, fuel).value.state.edges, |st.edges|, display)
    decreases fuel, 1, 0
  {
    var prop := Last(Objects(g, r, OwlOnProperty));
    PropertyIsOnProperty(g, r);
    if Triple(prop, RdfType, OwlDatatypeProperty) !in g {
      var classObjects := Objects(g, r, OwlOnClass);
      var someValues := Objects(g, r, OwlSomeValuesFrom);
      var allValues := Objects(g, r, OwlAllValuesFrom);
      if |classObjects| == 1 {
        ObjectsAreObjectOf(g, r, OwlOnClass, classObjects[0]);
        EdgeThenTraverseProduces(g, display, prop, classObjects[0], st, fuel);
      } else if |someValues| == 1 {
        var unions := Objects(g, someValues[0], OwlUnionOf);
        if |unions| == 1 {
          DecodedItemsAreFirsts(g, unions[0], fuel);
          var members := RdfList.Decode(g, unions[0], [], fuel).value;
          UnionProduces(g, members, display, prop, st, fuel);
        }
      } else if |allValues| == 1 {
        ObjectsAreObjectOf(g, r, OwlAllValuesFrom, allValues[0]);
        EdgeThenTraverseProduces(g, display, prop, allValues[0], st, fuel);
      }
    }
  }

  /** Appending the edge `(display, prop, target)` and then traversing
      `target` as its own display subject keeps the production anchored at
      `display`. */
  lemma {:induction false} EdgeThenTraverseProduces(g: Graph, display: Term, prop: Term, target: Term, st: State, fuel: nat)
    requires ObjectOf(g, OwlOnProperty, prop)
    requires ObjectOf(g, OwlOnClass, target) || ObjectOf(g, OwlAllValuesFrom, target) || ObjectOf(g, RdfFirst, target)
    requires Traverse(g, target, target, st.(edges := st.edges + [Edge(display, prop, target)]), fuel).Ok?
    ensures Produced(g, Traverse(g, target, target, st.(edges := st.edges + [Edge(display, prop, target)]), fuel).value.edges, |st.edges|, display)
    decreases fuel, 0, 1
  {
    var st1 := st.(edges := st.edges + [Edge(display, prop, target)]);
    TraverseProduces(g, target, target, st1, fuel);
    assert st1.edges[|st.edges|].target == target;
    ProducedExtend(g, st1.edges, Traverse(g, target, target, st1, fuel).value.edges, |st.edges|, display, target);
  }

  lemma {:induction false} EachProduces(g: Graph, members: seq<Term>, display: Term, st: State, fuel: nat)
    requires TraverseEach(g, members, display, st, fuel).Ok?
    ensures Produced(g, TraverseEach(g, members, display, st, fuel).value.edges, |st.edges|, display)
    decreases fuel, 0, |members| + 1
  {
    if members != [] {
      var st1 := Traverse(g, members[0], display, st, fuel).value;
      TraverseProduces(g, members[0], display, st, fuel);
      EachProduces(g, members[1..], display, st1, fuel);
      ProducedExtend(g, st1.edges, TraverseEach(g, members, display, st, fuel).value.edges, |st.edges|, display, display);
    }
  }

  lemma {:induction false} UnionProduces(g: Graph, members: seq<Term>, display: Term, prop: Term, st: State, fuel: nat)
    requires TraverseUnion(g, members, display, prop, st, fuel).Ok?
    requires ObjectOf(g, OwlOnProperty, prop)
    requires forall x :: x in members ==> ObjectOf(g, RdfFirst, x)
    ensures Produced(g, TraverseUnion(g, members, display, prop, st, fuel).value.edges, |st.edges|, display)
    decreases fuel, 0, |members| + 1
  {
    if members != [] {
      var x := members[0];
      var st1 := st.(edges := st.edges + [Edge(display, prop, x)]);
      var st2 := Traverse(g, x, x, st1, fuel).value;
      EdgeThenTraverseProduces(g, display, prop, x, st, fuel);
      UnionProduces(g, members[1..], display, prop, st2, fuel);
      ProducedExtend(g, st2.edges, TraverseUnion(g, members, display, prop, st, fuel).value.edges, |st.edges|, display, display);
    }
  }
}

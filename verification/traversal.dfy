/** The class-expression traversal: `graph_traversal` of the Python script.

    Starting from a class, the traversal walks every triple of the current
    term and
      - follows `owl:equivalentClass` into the object, keeping the display
        subject;
      - decodes the `owl:intersectionOf` collection and follows every member,
        keeping the display subject;
      - on a triple of an `owl:Restriction` node that is not yet visited,
        interprets the restriction by a fixed priority and appends at most one
        edge per target, the target becoming the display subject of what lies
        behind it.
    The edge list and the visited set are threaded through every call; the
    source mutates one list and one set in place and hands the same objects
    back, so threading them as values is the same computation.

    The term is marked visited at the END of each loop iteration that did not
    `continue`, not on entry. That placement means a term can be re-entered
    while it is still being expanded, so the recursion need not end; every
    call therefore takes `fuel`, the call depth still available, and running
    out stands for Python's RecursionError.
 */
module Traversal {
  import opened Wrappers
  import opened Rdf
  import RdfList

  /** One edge of the diagram: `display` relates to `target` via `property`. */
  datatype Edge = Edge(display: Term, property: Term, target: Term)

  /** The aggregator, the visited set, and the terms at which the diagnostic
      "Error in Traversing Graph" was printed, in order. */
  datatype State = State(edges: seq<Edge>, visited: set<Term>, reports: seq<Term>)

  /** The state `main` starts from: `agg = []`, `visited_nodes = set()`. */
  const Initial := State([], {}, [])

  /** One pass of the loop body: the state after it, and whether it reached
      `visited_nodes.add(term)` (false when it left by `continue`). */
  datatype Iteration = Iteration(state: State, marked: bool)

  /** `later` only appended to `earlier`'s edges and reports and only added to
      its visited set. */
  predicate Extends(earlier: State, later: State) {
    && earlier.edges <= later.edges
    && earlier.visited <= later.visited
    && earlier.reports <= later.reports
  }

  /** `graph_traversal(term, aggregator, display_subject, visited_nodes)`. */
  function Traverse(g: Graph, term: Term, display: Term, st: State, fuel: nat): (r: Result<State>)
    decreases fuel, 0, 0
    ensures r.Ok? ==> Extends(st, r.value)
    ensures fuel > 0 && term in st.visited ==> r == Ok(st)
  {
    if fuel == 0 then Err(RecursionError)
    else if term in st.visited then Ok(st)
    else Iterate(g, term, display, TriplesOf(g, term), st, fuel - 1)
  }

  /** The `for subject, predicate, obj in store.triples((term, None, None))`
      loop over the triples `ts` still to come. */
  function Iterate(g: Graph, term: Term, display: Term, ts: seq<Triple>, st: State, fuel: nat): (r: Result<State>)
    decreases fuel, 3, |ts|
    ensures r.Ok? ==> Extends(st, r.value)
  {
    if ts == [] then Ok(st)
    else
      var it :- Dispatch(g, term, display, ts[0], st, fuel);
      var next := if it.marked then it.state.(visited := it.state.visited + {term}) else it.state;
      Iterate(g, term, display, ts[1..], next, fuel)
  }

  /** One iteration of the loop body, on triple `t`. An iteration that leaves
      by `continue` changes nothing. */
  function Dispatch(g: Graph, term: Term, display: Term, t: Triple, st: State, fuel: nat): (r: Result<Iteration>)
    decreases fuel, 2, 0
    ensures r.Ok? ==> Extends(st, r.value.state)
    ensures r.Ok? && !r.value.marked ==> r.value.state == st
  {
    if t.p == OwlEquivalentClass then
      var st' :- Traverse(g, t.o, display, st, fuel);
      Ok(Iteration(st', true))
    else if t.p == OwlIntersectionOf then
      var members :- RdfList.Decode(g, t.o, [], fuel);
      var st' :- TraverseEach(g, members, display, st, fuel);
      Ok(Iteration(st', true))
    else if Triple(t.s, RdfType, OwlRestriction) in g && t.s !in st.visited then
      Restriction(g, t.s, display, st, fuel)
    else
      Ok(Iteration(st, true))
  }

  /** The restriction branch of the loop body for restriction node `r`. */
  function Restriction(g: Graph, r: Term, display: Term, st: State, fuel: nat): (res: Result<Iteration>)
    decreases fuel, 1, 0
    ensures res.Ok? ==> Extends(st, res.value.state)
    ensures res.Ok? && !res.value.marked ==> res.value.state == st
  {
    var props := Objects(g, r, OwlOnProperty);
    if props == [] then Err(IndexError)
    else
      var prop := Last(props);
      if Triple(prop, RdfType, OwlDatatypeProperty) in g then
        Ok(Iteration(st, false))
      else
        var classObjects := Objects(g, r, OwlOnClass);
        var someValues := Objects(g, r, OwlSomeValuesFrom);
        var allValues := Objects(g, r, OwlAllValuesFrom);
        if |classObjects| == 1 then
          var target := classObjects[0];
          var st' :- Traverse(g, target, target, st.(edges := st.edges + [Edge(display, prop, target)]), fuel);
          Ok(Iteration(st', true))
        else if |someValues| == 1 then
          var unions := Objects(g, someValues[0], OwlUnionOf);
          if |unions| != 1 then
            Ok(Iteration(st, false))
          else
            var members :- RdfList.Decode(g, unions[0], [], fuel);
            var st' :- TraverseUnion(g, members, display, prop, st, fuel);
            Ok(Iteration(st', true))
        else if |allValues| == 1 then
          var target := allValues[0];
          var st' :- Traverse(g, target, target, st.(edges := st.edges + [Edge(display, prop, target)]), fuel);
          Ok(Iteration(st', true))
        else if HasPredicate(g, r, OwlMinCardinality) then
          Ok(Iteration(st, false))
        else
          Ok(Iteration(st.(reports := st.reports + [r]), true))
  }

  /** The intersection loop: every member, with the same display subject. */
  function TraverseEach(g: Graph, members: seq<Term>, display: Term, st: State, fuel: nat): (r: Result<State>)
    decreases fuel, 0, |members| + 1
    ensures r.Ok? ==> Extends(st, r.value)
  {
    if members == [] then Ok(st)
    else
      var st' :- Traverse(g, members[0], display, st, fuel);
      TraverseEach(g, members[1..], display, st', fuel)
  }

  /** The union loop: for every member, the edge from the display subject,
      then the member traversed as its own display subject. */
  function TraverseUnion(g: Graph, members: seq<Term>, display: Term, prop: Term, st: State, fuel: nat): (r: Result<State>)
    decreases fuel, 0, |members| + 1
    ensures r.Ok? ==> Extends(st, r.value)
  {
    if members == [] then Ok(st)
    else
      var x := members[0];
      var st' :- Traverse(g, x, x, st.(edges := st.edges + [Edge(display, prop, x)]), fuel);
      TraverseUnion(g, members[1..], display, prop, st', fuel)
  }
}

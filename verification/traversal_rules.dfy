/** The dispatch rules of `graph_traversal`, stated on the model's outputs:
    the fixed priority among restriction kinds, the fan-out over a union, and
    the rule that decides when a term is marked visited.
 */
module TraversalRules {
  import opened Wrappers
  import opened Rdf
  import RdfList
  import Prefixes
  import opened Traversal
  import opened TraversalProperties
  import opened TraversalLoops

  /** `later` appended at least one edge to `earlier`, and the first of them
      is `e`. */
  predicate FirstNewEdge(earlier: State, later: State, e: Edge) {
    |later.edges| > |earlier.edges| && later.edges[|earlier.edges|] == e
  }

  /** How a restriction node is interpreted, first match wins:
      no `owl:onProperty` raises IndexError; a datatype property adds
      nothing; exactly one `owl:onClass` adds one edge to it and everything
      else hangs below it; else exactly one `owl:someValuesFrom` whose value
      lacks exactly one `owl:unionOf` adds nothing; else exactly one
      `owl:allValuesFrom` adds one edge to it; else `owl:minCardinality` adds
      nothing; else the diagnostic is reported. The "adds nothing" outcomes
      are `continue`s: the node is not marked by them. */
  lemma RestrictionPriority(g: Graph, r: Term, display: Term, st: State, fuel: nat)
    ensures Objects(g, r, OwlOnProperty) == [] ==> Restriction(g, r, display, st, fuel) == Err(IndexError)
    ensures Objects(g, r, OwlOnProperty) != [] ==>
      var prop := Last(Objects(g, r, OwlOnProperty));
      var isDatatype := Triple(prop, RdfType, OwlDatatypeProperty) in g;
      var oc := Objects(g, r, OwlOnClass);
      var sv := Objects(g, r, OwlSomeValuesFrom);
      var av := Objects(g, r, OwlAllValuesFrom);
      var res := Restriction(g, r, display, st, fuel);
      && (isDatatype ==> res == Ok(Iteration(st, false)))
      && (!isDatatype && |oc| == 1 && res.Ok? ==>
            && res.value.marked
            && FirstNewEdge(st, res.value.state, Edge(display, prop, oc[0]))
            && Anchored(res.value.state.edges, |st.edges| + 1, oc[0]))
      && (!isDatatype && |oc| != 1 && |sv| == 1 && |Objects(g, sv[0], OwlUnionOf)| != 1 ==>
            res == Ok(Iteration(st, false)))
      && (!isDatatype && |oc| != 1 && |sv| != 1 && |av| == 1 && res.Ok? ==>
            && res.value.marked
            && FirstNewEdge(st, res.value.state, Edge(display, prop, av[0]))
            && Anchored(res.value.state.edges, |st.edges| + 1, av[0]))
      && (!isDatatype && |oc| != 1 && |sv| != 1 && |av| != 1 && HasPredicate(g, r, OwlMinCardinality) ==>
            res == Ok(Iteration(st, false)))
      && (!isDatatype && |oc| != 1 && |sv| != 1 && |av| != 1 && !HasPredicate(g, r, OwlMinCardinality) ==>
            res == Ok(Iteration(st.(reports := st.reports + [r]), true)))
  {
    var props := Objects(g, r, OwlOnProperty);
    if props != [] {
      var prop := Last(props);
      var oc := Objects(g, r, OwlOnClass);
      var sv := Objects(g, r, OwlSomeValuesFrom);
      var av := Objects(g, r, OwlAllValuesFrom);
      if Triple(prop, RdfType, OwlDatatypeProperty) !in g && (|oc| == 1 || (|sv| != 1 && |av| == 1)) {
        var target := if |oc| == 1 then oc[0] else av[0];
        var st1 := st.(edges := st.edges + [Edge(display, prop, target)]);
        if Traverse(g, target, target, st1, fuel).Ok? {
          TraverseProduces(g, target, target, st1, fuel);
        }
      }
    }
  }

  /** An error below an `owl:onClass` edge is the restriction's error: the
      traversal of the class is not caught. */
  lemma OnClassErrorPropagates(g: Graph, r: Term, display: Term, st: State, fuel: nat, target: Term, e: Raised)
    requires Objects(g, r, OwlOnProperty) != []
    requires Triple(Last(Objects(g, r, OwlOnProperty)), RdfType, OwlDatatypeProperty) !in g
    requires Objects(g, r, OwlOnClass) == [target]
    requires Traverse(g, target, target, st.(edges := st.edges + [Edge(display, Last(Objects(g, r, OwlOnProperty)), target)]), fuel) == Err(e)
    ensures Restriction(g, r, display, st, fuel) == Err(e)
  {
  }

  /** An iteration that reached `visited_nodes.add(term)`, or the exception
      that stopped it first. */
  function Marked(r: Result<State>): Result<Iteration> {
    match r
    case Err(e) => Err(e)
    case Ok(s) => Ok(Iteration(s, true))
  }

  /** The `owl:onClass` branch in full: the class gets its edge and is
      traversed as its own display subject; an exception there is the
      restriction's, and otherwise the iteration marks the node. */
  lemma OnClassRestriction(g: Graph, r: Term, display: Term, st: State, fuel: nat, target: Term)
    requires Objects(g, r, OwlOnProperty) != []
    requires Triple(Last(Objects(g, r, OwlOnProperty)), RdfType, OwlDatatypeProperty) !in g
    requires Objects(g, r, OwlOnClass) == [target]
    ensures Restriction(g, r, display, st, fuel) ==
      Marked(Step(g, OwnDisplay(display, Last(Objects(g, r, OwlOnProperty))), target, st, fuel))
  {
  }

  /** The `owl:someValuesFrom` branch over a union in full: the collection is
      decoded, an exception there being the restriction's, and its members are
      visited in order, each after its edge and as its own display subject. */
  lemma UnionRestriction(g: Graph, r: Term, display: Term, st: State, fuel: nat, value: Term, list: Term)
    requires Objects(g, r, OwlOnProperty) != []
    requires Triple(Last(Objects(g, r, OwlOnProperty)), RdfType, OwlDatatypeProperty) !in g
    requires |Objects(g, r, OwlOnClass)| != 1
    requires Objects(g, r, OwlSomeValuesFrom) == [value]
    requires Objects(g, value, OwlUnionOf) == [list]
    ensures Restriction(g, r, display, st, fuel) ==
      Marked(var members :- RdfList.Decode(g, list, [], fuel);
             Loop(g, OwnDisplay(display, Last(Objects(g, r, OwlOnProperty))), members, st, fuel))
  {
  }

  /** The `owl:allValuesFrom` branch in full, reached without a single
      `owl:onClass` or `owl:someValuesFrom`: like `owl:onClass`, the value gets
      its edge and is traversed as its own display subject. */
  lemma AllValuesRestriction(g: Graph, r: Term, display: Term, st: State, fuel: nat, target: Term)
    requires Objects(g, r, OwlOnProperty) != []
    requires Triple(Last(Objects(g, r, OwlOnProperty)), RdfType, OwlDatatypeProperty) !in g
    requires |Objects(g, r, OwlOnClass)| != 1 && |Objects(g, r, OwlSomeValuesFrom)| != 1
    requires Objects(g, r, OwlAllValuesFrom) == [target]
    ensures Restriction(g, r, display, st, fuel) ==
      Marked(Step(g, OwnDisplay(display, Last(Objects(g, r, OwlOnProperty))), target, st, fuel))
  {
  }

  /** Union fan-out: for members `x1..xn` the union loop appends
      `(display, prop, xi)` at increasing positions `idx[i]`, the first one
      right away, and the edges between `idx[i]` and the next position are
      exactly those hanging below `xi`. */
  lemma {:induction false} UnionFanOut(g: Graph, members: seq<Term>, display: Term, prop: Term, st: State, fuel: nat)
    returns (idx: seq<nat>)
    requires TraverseUnion(g, members, display, prop, st, fuel).Ok?
    ensures FanOut(TraverseUnion(g, members, display, prop, st, fuel).value.edges, |st.edges|, idx, members, display, prop)
    decreases |members|
  {
    if members == [] {
      idx := [];
    } else {
      var x := members[0];
      var st1 := st.(edges := st.edges + [Edge(display, prop, x)]);
      var st2 := Traverse(g, x, x, st1, fuel).value;
      TraverseProduces(g, x, x, st1, fuel);
      var rest := UnionFanOut(g, members[1..], display, prop, st2, fuel);
      var tail := TraverseUnion(g, members[1..], display, prop, st2, fuel);
      assert TraverseUnion(g, members, display, prop, st, fuel) == tail;
      assert |rest| == 0 ==> tail == Ok(st2);
      FanOutCons(tail.value.edges, st.edges, st2.edges, x, rest, members[1..], display, prop);
      assert [x] + members[1..] == members;
      idx := [|st.edges|] + rest;
    }
  }

  /** The fan-out shape: `idx` lists, in increasing order from `from`, the
      positions of the edges `(display, prop, members[i])` in `out`, and the
      block after each position is anchored at its member. */
  ghost predicate FanOut(out: seq<Edge>, from: nat, idx: seq<nat>, members: seq<Term>, display: Term, prop: Term) {
    && |idx| == |members|
    && (forall i :: 0 <= i < |idx| ==> from <= idx[i] < |out| && out[idx[i]] == Edge(display, prop, members[i]))
    && (forall i, j :: 0 <= i < j < |idx| ==> idx[i] < idx[j])
    && (|idx| > 0 ==> idx[0] == from)
    && (forall i :: 0 <= i < |idx| ==> Anchored(out[..BlockEnd(idx, i, |out|)], idx[i] + 1, members[i]))
  }

  /** One member in front of a fan-out: its edge, then its anchored block,
      then the rest. */
  lemma FanOutCons(out: seq<Edge>, before: seq<Edge>, mid: seq<Edge>, x: Term, rest: seq<nat>,
                   tail: seq<Term>, display: Term, prop: Term)
    requires before + [Edge(display, prop, x)] <= mid <= out
    requires Anchored(mid, |before| + 1, x)
    requires FanOut(out, |mid|, rest, tail, display, prop)
    requires |rest| == 0 ==> out == mid
    ensures FanOut(out, |before|, [|before|] + rest, [x] + tail, display, prop)
  {
    var idx := [|before|] + rest;
    var members := [x] + tail;
    FanOutHead(out, before, mid, x, rest, display, prop);
    forall i | 1 <= i < |idx|
      ensures |before| <= idx[i] < |out| && out[idx[i]] == Edge(display, prop, members[i])
      ensures Anchored(out[..BlockEnd(idx, i, |out|)], idx[i] + 1, members[i])
    {
      assert idx[i] == rest[i - 1] && members[i] == tail[i - 1];
      assert BlockEnd(idx, i, |out|) == BlockEnd(rest, i - 1, |out|);
    }
    forall i, j | 0 <= i < j < |idx|
      ensures idx[i] < idx[j]
    {
      assert idx[j] == rest[j - 1];
      if i > 0 {
        assert idx[i] == rest[i - 1];
      }
    }
  }

  /** The first member of a fan-out: its edge sits at `|before|`, and its
      block reaches to the end of `mid`. */
  lemma FanOutHead(out: seq<Edge>, before: seq<Edge>, mid: seq<Edge>, x: Term, rest: seq<nat>, display: Term, prop: Term)
    requires before + [Edge(display, prop, x)] <= mid <= out
    requires Anchored(mid, |before| + 1, x)
    requires |rest| > 0 ==> rest[0] == |mid|
    requires |rest| == 0 ==> out == mid
    ensures var idx := [|before|] + rest;
      && |before| < |out| && out[|before|] == Edge(display, prop, x)
      && Anchored(out[..BlockEnd(idx, 0, |out|)], |before| + 1, x)
  {
    var idx := [|before|] + rest;
    assert out[|before|] == mid[|before|];
    assert BlockEnd(idx, 0, |out|) == |mid| by {
      if |rest| > 0 {
        assert idx[1] == rest[0];
      }
    }
    assert out[..|mid|] == mid;
  }

  /** Where the block that starts at `idx[i]` ends: at the next position, or
      at `end` for the last one. */
  function BlockEnd(idx: seq<nat>, i: nat, end: nat): nat
    requires i < |idx|
  {
    if i + 1 < |idx| then idx[i + 1] else end
  }

  /** Union fan-out seen from the restriction: exactly one `owl:onClass`
      missing, exactly one `owl:someValuesFrom` whose value has exactly one
      `owl:unionOf` decoding to `members`: the restriction appends the edges
      `(display, prop, xi)` in member order, starting at once. */
  lemma SomeValuesUnionFanOut(g: Graph, r: Term, display: Term, st: State, fuel: nat, members: seq<Term>)
    returns (idx: seq<nat>)
    requires Objects(g, r, OwlOnProperty) != []
    requires Triple(Last(Objects(g, r, OwlOnProperty)), RdfType, OwlDatatypeProperty) !in g
    requires |Objects(g, r, OwlOnClass)| != 1 && |Objects(g, r, OwlSomeValuesFrom)| == 1
    requires |Objects(g, Objects(g, r, OwlSomeValuesFrom)[0], OwlUnionOf)| == 1
    requires RdfList.Decode(g, Objects(g, Objects(g, r, OwlSomeValuesFrom)[0], OwlUnionOf)[0], [], fuel) == Ok(members)
    requires Restriction(g, r, display, st, fuel).Ok?
    ensures var out := Restriction(g, r, display, st, fuel).value.state.edges;
      var prop := Last(Objects(g, r, OwlOnProperty));
      && |idx| == |members| > 0
      && idx[0] == |st.edges|
      && (forall i :: 0 <= i < |idx| ==> |st.edges| <= idx[i] < |out| && out[idx[i]] == Edge(display, prop, members[i]))
      && (forall i, j :: 0 <= i < j < |idx| ==> idx[i] < idx[j])
  {
    var prop := Last(Objects(g, r, OwlOnProperty));
    idx := UnionFanOut(g, members, display, prop, st, fuel);
  }

  // ---------------------------------------------------------------------
  // The marking rule

  /** Equivalent classes are transparent: a class whose only triple is
      `owl:equivalentClass o` is traversed as `o` is, under the same display
      subject, and is then marked. */
  lemma EquivalentClassIsTransparent(g: Graph, term: Term, o: Term, display: Term, st: State, fuel: nat)
    requires fuel > 0 && term !in st.visited
    requires TriplesOf(g, term) == [Triple(term, OwlEquivalentClass, o)]
    ensures Traverse(g, term, display, st, fuel) ==
      match Traverse(g, o, display, st, fuel - 1)
      case Err(e) => Err(e)
      case Ok(s) => Ok(s.(visited := s.visited + {term}))
  {
    var t := Triple(term, OwlEquivalentClass, o);
    assert [t][1..] == [];
    var inner := Traverse(g, o, display, st, fuel - 1);
    assert Dispatch(g, term, display, t, st, fuel - 1) == if inner.Ok? then Ok(Iteration(inner.value, true)) else Err(inner.error);
    if inner.Ok? {
      var next := inner.value.(visited := inner.value.visited + {term});
      assert Iterate(g, term, display, [], next, fuel - 1) == Ok(next);
    }
  }

  /** Intersections are transparent: a class whose only triple is
      `owl:intersectionOf l` decodes `l`, an exception there being the class's,
      visits the members in order under its own display subject, and is then
      marked. */
  lemma IntersectionIsTransparent(g: Graph, term: Term, list: Term, display: Term, st: State, fuel: nat)
    requires fuel > 0 && term !in st.visited
    requires TriplesOf(g, term) == [Triple(term, OwlIntersectionOf, list)]
    ensures Traverse(g, term, display, st, fuel) ==
      var members :- RdfList.Decode(g, list, [], fuel - 1);
      var s :- Loop(g, KeepDisplay(display), members, st, fuel - 1);
      Ok(s.(visited := s.visited + {term}))
  {
    var t := Triple(term, OwlIntersectionOf, list);
    assert [t][1..] == [];
    assert OwlIntersectionOf != OwlEquivalentClass by {
      assert OwlIntersectionOf.iri[|Prefixes.OwlNs|] == 'i';
      assert OwlEquivalentClass.iri[|Prefixes.OwlNs|] == 'e';
    }
    var dec := RdfList.Decode(g, list, [], fuel - 1);
    if dec.Ok? {
      var inner := Loop(g, KeepDisplay(display), dec.value, st, fuel - 1);
      assert Dispatch(g, term, display, t, st, fuel - 1) == if inner.Ok? then Ok(Iteration(inner.value, true)) else Err(inner.error);
      if inner.Ok? {
        var next := inner.value.(visited := inner.value.visited + {term});
        assert Iterate(g, term, display, [], next, fuel - 1) == Ok(next);
      }
    } else {
      assert Dispatch(g, term, display, t, st, fuel - 1) == Err(dec.error);
    }
  }

  /** An error while traversing the equivalent class is the class's own
      error. */
  lemma EquivalentClassPropagatesError(g: Graph, term: Term, o: Term, display: Term, st: State, fuel: nat)
    requires fuel > 0 && term !in st.visited
    requires TriplesOf(g, term) == [Triple(term, OwlEquivalentClass, o)]
    requires Traverse(g, o, display, st, fuel - 1).Err?
    ensures Traverse(g, term, display, st, fuel) == Err(Traverse(g, o, display, st, fuel - 1).error)
  {
    EquivalentClassIsTransparent(g, term, o, display, st, fuel);
  }

  /** A term with no triples is never marked: the loop body never runs. */
  lemma NoTriplesNeverMarked(g: Graph, term: Term, display: Term, st: State, fuel: nat)
    requires fuel > 0 && TriplesOf(g, term) == []
    ensures Traverse(g, term, display, st, fuel) == Ok(st)
  {
  }

  /** Once `term` is visited, the loop over its remaining non-defining
      triples does nothing. */
  lemma {:induction false} IterateAfterMarked(g: Graph, term: Term, display: Term, ts: seq<Triple>, st: State, fuel: nat)
    requires term in st.visited
    requires forall t :: t in ts ==> t.s == term && t.p != OwlEquivalentClass && t.p != OwlIntersectionOf
    ensures Iterate(g, term, display, ts, st, fuel) == Ok(st)
    decreases |ts|
  {
    if ts != [] {
      assert st.(visited := st.visited + {term}) == st;
      IterateAfterMarked(g, term, display, ts[1..], st, fuel);
    }
  }

  /** The loop over the triples of an unvisited restriction node none of which
      is `owl:equivalentClass` or `owl:intersectionOf`: the restriction is
      interpreted once; if that did not `continue`, the node is marked and
      the later triples are skipped; if it did, the next triple interprets it
      again on the same state, with the same outcome. */
  lemma {:induction false} IterateRestrictionNode(g: Graph, r: Term, display: Term, ts: seq<Triple>, st: State, fuel: nat)
    requires ts != []
    requires r !in st.visited && Triple(r, RdfType, OwlRestriction) in g
    requires forall t :: t in ts ==> t.s == r && t.p != OwlEquivalentClass && t.p != OwlIntersectionOf
    ensures Iterate(g, r, display, ts, st, fuel) ==
      match Restriction(g, r, display, st, fuel)
      case Err(e) => Err(e)
      case Ok(it) => Ok(if it.marked then it.state.(visited := it.state.visited + {r}) else st)
    decreases |ts|
  {
    assert ts[0] in ts;
    var res := Restriction(g, r, display, st, fuel);
    assert Dispatch(g, r, display, ts[0], st, fuel) == res;
    if res.Ok? {
      var it := res.value;
      if it.marked {
        var next := it.state.(visited := it.state.visited + {r});
        IterateAfterMarked(g, r, display, ts[1..], next, fuel);
      } else if ts[1..] != [] {
        IterateRestrictionNode(g, r, display, ts[1..], st, fuel);
      }
    }
  }

  /** A restriction node is dispatched on its first triple only: traversing an
      unvisited restriction node whose triples do not include
      `owl:equivalentClass` or `owl:intersectionOf` is one interpretation of
      the restriction, followed by marking the node unless that was a
      `continue`; after a `continue` the node stays unmarked and nothing has
      changed. */
  lemma RestrictionDispatchedOnce(g: Graph, r: Term, display: Term, st: State, fuel: nat)
    requires fuel > 0 && r !in st.visited && Triple(r, RdfType, OwlRestriction) in g
    requires forall t :: t in TriplesOf(g, r) ==> t.p != OwlEquivalentClass && t.p != OwlIntersectionOf
    ensures Traverse(g, r, display, st, fuel) ==
      match Restriction(g, r, display, st, fuel - 1)
      case Err(e) => Err(e)
      case Ok(it) => Ok(if it.marked then it.state.(visited := it.state.visited + {r}) else st)
  {
    assert Triple(r, RdfType, OwlRestriction) in TriplesOf(g, r);
    IterateRestrictionNode(g, r, display, TriplesOf(g, r), st, fuel - 1);
  }

  /** An error in the interpretation of a restriction node is the node's
      own error. */
  lemma RestrictionErrorPropagates(g: Graph, r: Term, display: Term, st: State, fuel: nat, e: Raised)
    requires fuel > 0 && r !in st.visited && Triple(r, RdfType, OwlRestriction) in g
    requires forall t :: t in TriplesOf(g, r) ==> t.p != OwlEquivalentClass && t.p != OwlIntersectionOf
    requires Restriction(g, r, display, st, fuel - 1) == Err(e)
    ensures Traverse(g, r, display, st, fuel) == Err(e)
  {
    RestrictionDispatchedOnce(g, r, display, st, fuel);
  }

  /** An error below the `owl:onClass` edge of a restriction node is the
      node's own error. */
  lemma OnClassNodePropagatesError(g: Graph, r: Term, display: Term, st: State, fuel: nat, target: Term, e: Raised)
    requires fuel > 0 && r !in st.visited && Triple(r, RdfType, OwlRestriction) in g
    requires forall t :: t in TriplesOf(g, r) ==> t.p != OwlEquivalentClass && t.p != OwlIntersectionOf
    requires Objects(g, r, OwlOnProperty) != []
    requires Triple(Last(Objects(g, r, OwlOnProperty)), RdfType, OwlDatatypeProperty) !in g
    requires Objects(g, r, OwlOnClass) == [target]
    requires Traverse(g, target, target, st.(edges := st.edges + [Edge(display, Last(Objects(g, r, OwlOnProperty)), target)]), fuel - 1) == Err(e)
    ensures Traverse(g, r, display, st, fuel) == Err(e)
  {
    OnClassErrorPropagates(g, r, display, st, fuel - 1, target, e);
    RestrictionErrorPropagates(g, r, display, st, fuel, e);
  }

  /** A restriction node without `owl:onProperty` raises IndexError as soon as
      its first triple is dispatched. */
  lemma MissingOnPropertyRaises(g: Graph, r: Term, display: Term, st: State, fuel: nat)
    requires fuel > 0 && r !in st.visited && Triple(r, RdfType, OwlRestriction) in g
    requires Objects(g, r, OwlOnProperty) == []
    requires TriplesOf(g, r)[0].p != OwlEquivalentClass && TriplesOf(g, r)[0].p != OwlIntersectionOf
    ensures Traverse(g, r, display, st, fuel) == Err(IndexError)
  {
    assert Triple(r, RdfType, OwlRestriction) in TriplesOf(g, r);
    var ts := TriplesOf(g, r);
    assert ts[0] in ts;
    assert Dispatch(g, r, display, ts[0], st, fuel - 1) == Err(IndexError);
  }

  /** A triple whose iteration cannot `continue`: an `owl:equivalentClass` or
      `owl:intersectionOf` triple, or any triple of a term that is not an
      `owl:Restriction`. */
  predicate NeverContinues(g: Graph, t: Triple) {
    t.p == OwlEquivalentClass || t.p == OwlIntersectionOf || Triple(t.s, RdfType, OwlRestriction) !in g
  }

  /** Any other triple of a term that is not an unvisited restriction node is
      passed over: the iteration changes nothing but reaches the marking. */
  lemma PlainTripleMarks(g: Graph, term: Term, display: Term, t: Triple, st: State, fuel: nat)
    requires t.p != OwlEquivalentClass && t.p != OwlIntersectionOf
    requires Triple(t.s, RdfType, OwlRestriction) !in g || t.s in st.visited
    ensures Dispatch(g, term, display, t, st, fuel) == Ok(Iteration(st, true))
  {
  }

  /** A loop that meets a triple whose iteration cannot `continue` has marked
      the term by the time it returns successfully. */
  lemma {:induction false} MarkingTripleMarks(g: Graph, term: Term, display: Term, ts: seq<Triple>, st: State, fuel: nat, k: nat)
    requires k < |ts| && NeverContinues(g, ts[k])
    requires Iterate(g, term, display, ts, st, fuel).Ok?
    ensures term in Iterate(g, term, display, ts, st, fuel).value.visited
    decreases |ts|
  {
    var it := Dispatch(g, term, display, ts[0], st, fuel).value;
    var next := if it.marked then it.state.(visited := it.state.visited + {term}) else it.state;
    if k == 0 {
      assert it.marked;
      assert term in next.visited;
    } else {
      MarkingTripleMarks(g, term, display, ts[1..], next, fuel, k - 1);
    }
  }

  /** The marking rule at the level of `graph_traversal`: a class with a
      defining triple, and any term with triples that is not a restriction,
      is visited after a successful traversal. */
  lemma ClassIsMarked(g: Graph, term: Term, display: Term, st: State, fuel: nat, k: nat)
    requires k < |TriplesOf(g, term)| && NeverContinues(g, TriplesOf(g, term)[k])
    requires Traverse(g, term, display, st, fuel).Ok?
    ensures term in Traverse(g, term, display, st, fuel).value.visited
  {
    if term !in st.visited {
      MarkingTripleMarks(g, term, display, TriplesOf(g, term), st, fuel - 1, k);
    }
  }
}

/** A class that reaches itself through a restriction: the traversal of it
    never ends, in any graph of that shape and in a concrete one.
 */
module TraversalExamples {
  import opened Wrappers
  import opened Rdf
  import opened Traversal
  import Prefixes
  import TraversalRules

  /** Two IRIs in one namespace whose local names differ in length or in
      their first character are different. */
  lemma LocalNamesDiffer(ns: string, a: string, b: string)
    requires |a| != |b| || (|a| > 0 && |b| > 0 && a[0] != b[0])
    ensures Iri(ns + a) != Iri(ns + b)
  {
    if |a| == |b| {
      assert (ns + a)[|ns|] == a[0] && (ns + b)[|ns|] == b[0];
    }
  }

  /** Two IRIs whose namespaces differ at index `k` are different. */
  lemma NamespacesDiffer(n1: string, n2: string, a: string, b: string, k: nat)
    requires k < |n1| && k < |n2| && n1[k] != n2[k]
    ensures Iri(n1 + a) != Iri(n2 + b)
  {
    assert (n1 + a)[k] == n1[k] && (n2 + b)[k] == n2[k];
  }

  /** The vocabulary terms the examples compare are pairwise different. */
  lemma VocabularyDistinct()
    ensures RdfType !in {OwlEquivalentClass, OwlIntersectionOf, OwlOnProperty, OwlOnClass,
                         OwlSomeValuesFrom, OwlAllValuesFrom, OwlMinCardinality}
    ensures OwlOnProperty !in {OwlEquivalentClass, OwlIntersectionOf, OwlOnClass,
                               OwlSomeValuesFrom, OwlAllValuesFrom, OwlMinCardinality}
    ensures OwlOnClass !in {OwlEquivalentClass, OwlIntersectionOf,
                            OwlSomeValuesFrom, OwlAllValuesFrom, OwlMinCardinality}
    ensures OwlSomeValuesFrom !in {OwlEquivalentClass, OwlIntersectionOf, OwlAllValuesFrom, OwlMinCardinality}
  {
    NamespacesDiffer(Prefixes.RdfNs, Prefixes.OwlNs, "type", "equivalentClass", 18);
    NamespacesDiffer(Prefixes.RdfNs, Prefixes.OwlNs, "type", "intersectionOf", 18);
    NamespacesDiffer(Prefixes.RdfNs, Prefixes.OwlNs, "type", "onProperty", 18);
    NamespacesDiffer(Prefixes.RdfNs, Prefixes.OwlNs, "type", "onClass", 18);
    NamespacesDiffer(Prefixes.RdfNs, Prefixes.OwlNs, "type", "someValuesFrom", 18);
    NamespacesDiffer(Prefixes.RdfNs, Prefixes.OwlNs, "type", "allValuesFrom", 18);
    NamespacesDiffer(Prefixes.RdfNs, Prefixes.OwlNs, "type", "minCardinality", 18);
    LocalNamesDiffer(Prefixes.OwlNs, "onProperty", "equivalentClass");
    LocalNamesDiffer(Prefixes.OwlNs, "onProperty", "intersectionOf");
    LocalNamesDiffer(Prefixes.OwlNs, "onProperty", "onClass");
    LocalNamesDiffer(Prefixes.OwlNs, "onProperty", "someValuesFrom");
    LocalNamesDiffer(Prefixes.OwlNs, "onProperty", "allValuesFrom");
    LocalNamesDiffer(Prefixes.OwlNs, "onProperty", "minCardinality");
    LocalNamesDiffer(Prefixes.OwlNs, "onClass", "equivalentClass");
    LocalNamesDiffer(Prefixes.OwlNs, "onClass", "intersectionOf");
    LocalNamesDiffer(Prefixes.OwlNs, "onClass", "someValuesFrom");
    LocalNamesDiffer(Prefixes.OwlNs, "onClass", "allValuesFrom");
    LocalNamesDiffer(Prefixes.OwlNs, "onClass", "minCardinality");
    LocalNamesDiffer(Prefixes.OwlNs, "someValuesFrom", "equivalentClass");
    LocalNamesDiffer(Prefixes.OwlNs, "someValuesFrom", "intersectionOf");
    LocalNamesDiffer(Prefixes.OwlNs, "someValuesFrom", "allValuesFrom");
    LocalNamesDiffer(Prefixes.OwlNs, "someValuesFrom", "minCardinality");
  }

  /** The triples of `s` and the objects of `(s, p)` in a small graph, one
      triple at a time. */
  function Keep(t: Triple, s: Term): seq<Triple> {
    if t.s == s then [t] else []
  }

  function Pick(t: Triple, s: Term, p: Term): seq<Term> {
    if t.s == s && t.p == p then [t.o] else []
  }

  lemma TriplesCons(t: Triple, rest: Graph, s: Term)
    ensures TriplesOf([t] + rest, s) == Keep(t, s) + TriplesOf(rest, s)
  {
    assert ([t] + rest)[1..] == rest;
  }

  lemma ObjectsCons(t: Triple, rest: Graph, s: Term, p: Term)
    ensures Objects([t] + rest, s, p) == Pick(t, s, p) + Objects(rest, s, p)
  {
    assert ([t] + rest)[1..] == rest;
  }

  lemma TriplesTwo(t0: Triple, t1: Triple, s: Term)
    ensures TriplesOf([t0, t1], s) == Keep(t0, s) + Keep(t1, s)
  {
    TriplesCons(t1, [], s);
    assert [t1] + [] == [t1];
    assert TriplesOf([], s) == [];
    TriplesCons(t0, [t1], s);
    assert [t0, t1] == [t0] + [t1];
  }

  lemma ObjectsTwo(t0: Triple, t1: Triple, s: Term, p: Term)
    ensures Objects([t0, t1], s, p) == Pick(t0, s, p) + Pick(t1, s, p)
  {
    ObjectsCons(t1, [], s, p);
    assert [t1] + [] == [t1];
    assert Objects([], s, p) == [];
    ObjectsCons(t0, [t1], s, p);
    assert [t0, t1] == [t0] + [t1];
  }

  /** The queries on a graph of three triples. */
  lemma QueriesThree(g: Graph, s: Term, p: Term)
    requires |g| == 3
    ensures TriplesOf(g, s) == Keep(g[0], s) + (Keep(g[1], s) + Keep(g[2], s))
    ensures Objects(g, s, p) == Pick(g[0], s, p) + (Pick(g[1], s, p) + Pick(g[2], s, p))
  {
    assert g == [g[0]] + [g[1], g[2]];
    TriplesTwo(g[1], g[2], s);
    TriplesCons(g[0], [g[1], g[2]], s);
    ObjectsTwo(g[1], g[2], s, p);
    ObjectsCons(g[0], [g[1], g[2]], s, p);
  }

  /** The queries on a graph of four triples. */
  lemma QueriesFour(g: Graph, s: Term, p: Term)
    requires |g| == 4
    ensures TriplesOf(g, s) == Keep(g[0], s) + (Keep(g[1], s) + (Keep(g[2], s) + Keep(g[3], s)))
    ensures Objects(g, s, p) == Pick(g[0], s, p) + (Pick(g[1], s, p) + (Pick(g[2], s, p) + Pick(g[3], s, p)))
  {
    assert g == [g[0]] + g[1..];
    QueriesThree(g[1..], s, p);
    TriplesCons(g[0], g[1..], s);
    ObjectsCons(g[0], g[1..], s, p);
  }

  const A := Iri("http://example.org/A")
  const P := Iri("http://example.org/p")
  const R := Blank("r")

  /** `A owl:equivalentClass [ a owl:Restriction; owl:onProperty p; owl:onClass A ]`. */
  const Cyclic: Graph := [
    Triple(A, OwlEquivalentClass, R),
    Triple(R, RdfType, OwlRestriction),
    Triple(R, OwlOnProperty, P),
    Triple(R, OwlOnClass, A)
  ]

  /** A class that reaches itself through a restriction, in any graph: its
      only triple is `owl:equivalentClass r`, and `r` is an object
      restriction, dispatched on its first triple, whose `owl:onClass` is the
      class again. */
  ghost predicate SelfRestricted(g: Graph, a: Term, r: Term) {
    && a != r
    && TriplesOf(g, a) == [Triple(a, OwlEquivalentClass, r)]
    && Triple(r, RdfType, OwlRestriction) in g
    && (forall t :: t in TriplesOf(g, r) ==> t.p != OwlEquivalentClass && t.p != OwlIntersectionOf)
    && Objects(g, r, OwlOnProperty) != []
    && Triple(Last(Objects(g, r, OwlOnProperty)), RdfType, OwlDatatypeProperty) !in g
    && Objects(g, r, OwlOnClass) == [a]
  }

  /** The traversal does not terminate on such a class: `a` is marked only
      after the call on `r` returns, and `r` only after the call on `a`
      behind it returns, so each re-enters the other until the call depth
      runs out, whatever the depth. */
  lemma {:induction false} CycleNeverEnds(g: Graph, a: Term, r: Term, st: State, fuel: nat)
    requires SelfRestricted(g, a, r)
    requires a !in st.visited && r !in st.visited
    ensures Traverse(g, a, a, st, fuel) == Err(RecursionError)
    decreases fuel
  {
    if fuel > 1 {
      var prop := Last(Objects(g, r, OwlOnProperty));
      CycleNeverEnds(g, a, r, st.(edges := st.edges + [Edge(a, prop, a)]), fuel - 2);
      CycleStep(g, a, r, st, fuel);
    } else if fuel == 1 {
      TraversalRules.EquivalentClassPropagatesError(g, a, r, a, st, fuel);
    }
  }

  /** One turn of the cycle: if the traversal of `a` behind the edge fails
      two calls deeper, the traversal of `a` fails with it. */
  lemma CycleStep(g: Graph, a: Term, r: Term, st: State, fuel: nat)
    requires SelfRestricted(g, a, r)
    requires a !in st.visited && r !in st.visited && fuel > 1
    requires Traverse(g, a, a, st.(edges := st.edges + [Edge(a, Last(Objects(g, r, OwlOnProperty)), a)]), fuel - 2) == Err(RecursionError)
    ensures Traverse(g, a, a, st, fuel) == Err(RecursionError)
  {
    TraversalRules.OnClassNodePropagatesError(g, r, a, st, fuel - 1, a, RecursionError);
    TraversalRules.EquivalentClassPropagatesError(g, a, r, a, st, fuel);
  }

  /** The triples of `A` in `Cyclic`: the equivalence alone. */
  lemma CyclicTriplesOfA()
    ensures TriplesOf(Cyclic, A) == [Cyclic[0]]
  {
    QueriesFour(Cyclic, A, OwlOnProperty);
  }

  /** The triples of `R` in `Cyclic`: all the others. */
  lemma CyclicTriplesOfR()
    ensures TriplesOf(Cyclic, R) == Cyclic[1..]
  {
    QueriesFour(Cyclic, R, OwlOnProperty);
  }

  /** The property and the class of the restriction `R` in `Cyclic`. */
  lemma CyclicRestriction()
    ensures Objects(Cyclic, R, OwlOnProperty) == [P]
    ensures Objects(Cyclic, R, OwlOnClass) == [A]
  {
    var g := Cyclic;
    VocabularyDistinct();
    assert Objects(g, R, OwlOnProperty) == [P] by { QueriesFour(g, R, OwlOnProperty); }
    assert Objects(g, R, OwlOnClass) == [A] by { QueriesFour(g, R, OwlOnClass); }
  }

  /** `R` is a restriction that is neither an equivalence nor an
      intersection, and `P` is not a datatype property. */
  lemma CyclicShape()
    ensures Triple(R, RdfType, OwlRestriction) in Cyclic
    ensures forall t :: t in Cyclic[1..] ==> t.p != OwlEquivalentClass && t.p != OwlIntersectionOf
    ensures Triple(P, RdfType, OwlDatatypeProperty) !in Cyclic
  {
    VocabularyDistinct();
    assert Cyclic[1] == Triple(R, RdfType, OwlRestriction);
    assert Cyclic[1..] == [Cyclic[1], Cyclic[2], Cyclic[3]];
    assert P != A && P != R;
  }

  /** `A` is a class that reaches itself through `R` in `Cyclic`. */
  lemma CyclicIsSelfRestricted()
    ensures SelfRestricted(Cyclic, A, R)
  {
    CyclicTriplesOfA();
    CyclicTriplesOfR();
    CyclicRestriction();
    CyclicShape();
    assert Last([P]) == P;
  }

  /** `Cyclic` is such a graph, so traversing `A` in it never ends. */
  lemma CyclicNeverEnds(fuel: nat)
    ensures Traverse(Cyclic, A, A, Initial, fuel) == Err(RecursionError)
  {
    CyclicIsSelfRestricted();
    CycleNeverEnds(Cyclic, A, R, Initial, fuel);
  }

  // ---------------------------------------------------------------------
  // The same cycle behind a plain triple

  /** `Cyclic` with one more triple of `A` in front: `A p A`. */
  const Guarded: Graph := [Triple(A, P, A)] + Cyclic

  /** The example IRI `P` is none of the vocabulary the loop dispatches on. */
  lemma PIsPlain()
    ensures P != OwlEquivalentClass && P != OwlIntersectionOf && P != RdfType
  {
    assert P.iri[7] == 'e';
    assert OwlEquivalentClass.iri[7] == 'w' && OwlIntersectionOf.iri[7] == 'w' && RdfType.iri[7] == 'w';
  }

  /** The triples of `A` and `R` in `Guarded`: those in `Cyclic`, with the
      plain triple in front of those of `A`. */
  lemma GuardedTriples()
    ensures TriplesOf(Guarded, A) == [Triple(A, P, A), Triple(A, OwlEquivalentClass, R)]
    ensures TriplesOf(Guarded, R) == Cyclic[1..]
  {
    TriplesCons(Triple(A, P, A), Cyclic, A);
    TriplesCons(Triple(A, P, A), Cyclic, R);
    CyclicTriplesOfA();
    CyclicTriplesOfR();
  }

  /** The property and the class of the restriction `R` in `Guarded`. */
  lemma GuardedRestriction()
    ensures Objects(Guarded, R, OwlOnProperty) == [P]
    ensures Objects(Guarded, R, OwlOnClass) == [A]
  {
    ObjectsCons(Triple(A, P, A), Cyclic, R, OwlOnProperty);
    ObjectsCons(Triple(A, P, A), Cyclic, R, OwlOnClass);
    CyclicRestriction();
  }

  /** `A` is no restriction, `R` is one with no defining triple, and `P` is
      not a datatype property. */
  lemma GuardedShape()
    ensures Triple(A, RdfType, OwlRestriction) !in Guarded
    ensures Triple(R, RdfType, OwlRestriction) in Guarded
    ensures Triple(P, RdfType, OwlDatatypeProperty) !in Guarded
  {
    CyclicShape();
    PIsPlain();
    VocabularyDistinct();
    assert Cyclic[0] == Triple(A, OwlEquivalentClass, R);
    assert Cyclic == [Cyclic[0]] + Cyclic[1..];
    assert A != R && P != A;
  }

  /** Whether the cycle ends depends on triple order: in `Guarded`, the plain
      triple `A p A` comes first and marks `A`, so the `owl:onClass` edge
      back to `A` finds it visited and the traversal ends with that one
      edge, `A` and `R` visited, nothing reported. */
  lemma GuardedCycleEnds(fuel: nat)
    requires fuel >= 3
    ensures Traverse(Guarded, A, A, Initial, fuel) == Ok(State([Edge(A, P, A)], {A, R}, []))
  {
    GuardedTriples();
    GuardedRestriction();
    GuardedShape();
    CyclicShape();
    PIsPlain();
    RestrictionBackToVisited(Guarded, A, R, P, fuel - 1);
    PlainTripleFirst(Guarded, A, R, P, State([Edge(A, P, A)], {A, R}, []), fuel);
    MarkingAgain(State([Edge(A, P, A)], {A, R}, []), A);
  }

  /** Marking a term that is already visited leaves the state as it is. */
  lemma MarkingAgain(s: State, t: Term)
    requires t in s.visited
    ensures s.(visited := s.visited + {t}) == s
  {
  }

  /** In any graph: a class `a` that is no restriction, whose triples are
      `a p a` and then `a ≡ o`, is marked by the plain triple before `o` is
      traversed; the class ends where that traversal of `o` ends. */
  lemma PlainTripleFirst(g: Graph, a: Term, o: Term, p: Term, s: State, fuel: nat)
    requires fuel >= 2
    requires p != OwlEquivalentClass && p != OwlIntersectionOf
    requires TriplesOf(g, a) == [Triple(a, p, a), Triple(a, OwlEquivalentClass, o)]
    requires Triple(a, RdfType, OwlRestriction) !in g
    requires Traverse(g, o, a, State([], {a}, []), fuel - 1) == Ok(s)
    ensures Traverse(g, a, a, Initial, fuel) == Ok(s.(visited := s.visited + {a}))
  {
    PlainThenEquivalence(g, a, o, p, s, fuel - 1);
    TraverseUnfolds(g, a, a, Initial, fuel);
  }

  /** The loop over `a p a` and then `a ≡ o`, from the initial state. */
  lemma PlainThenEquivalence(g: Graph, a: Term, o: Term, p: Term, s: State, fuel: nat)
    requires p != OwlEquivalentClass && p != OwlIntersectionOf
    requires Triple(a, RdfType, OwlRestriction) !in g
    requires Traverse(g, o, a, State([], {a}, []), fuel) == Ok(s)
    ensures Iterate(g, a, a, [Triple(a, p, a), Triple(a, OwlEquivalentClass, o)], Initial, fuel) == Ok(s.(visited := s.visited + {a}))
  {
    var t0, t1 := Triple(a, p, a), Triple(a, OwlEquivalentClass, o);
    var st1 := State([], {a}, []);
    TraversalRules.PlainTripleMarks(g, a, a, t0, Initial, fuel);
    assert Initial.(visited := Initial.visited + {a}) == st1;
    EquivalenceStep(g, a, a, t1, st1, s, fuel);
    IterateTwoMarked(g, a, a, t0, t1, Initial, st1, s, fuel);
  }

  /** An unvisited term with call depth left is the loop over its triples. */
  lemma TraverseUnfolds(g: Graph, term: Term, display: Term, st: State, fuel: nat)
    requires fuel > 0 && term !in st.visited
    ensures Traverse(g, term, display, st, fuel) == Iterate(g, term, display, TriplesOf(g, term), st, fuel - 1)
  {
  }

  /** The iteration on an `owl:equivalentClass` triple whose object is
      traversed successfully reaches the marking with that state. */
  lemma EquivalenceStep(g: Graph, term: Term, display: Term, t: Triple, st: State, s: State, fuel: nat)
    requires t.p == OwlEquivalentClass && Traverse(g, t.o, display, st, fuel) == Ok(s)
    ensures Dispatch(g, term, display, t, st, fuel) == Ok(Iteration(s, true))
  {
  }

  /** A loop over two triples whose iterations both reach the marking. */
  lemma IterateTwoMarked(g: Graph, term: Term, display: Term, t0: Triple, t1: Triple, st: State, n1: State, s2: State, fuel: nat)
    requires Dispatch(g, term, display, t0, st, fuel) == Ok(Iteration(st, true))
    requires n1 == st.(visited := st.visited + {term})
    requires Dispatch(g, term, display, t1, n1, fuel) == Ok(Iteration(s2, true))
    ensures Iterate(g, term, display, [t0, t1], st, fuel) == Ok(s2.(visited := s2.visited + {term}))
  {
    var n2 := s2.(visited := s2.visited + {term});
    assert [t1][1..] == [];
    assert Iterate(g, term, display, [], n2, fuel) == Ok(n2);
    assert Iterate(g, term, display, [t1], n1, fuel) == Ok(n2);
    assert [t0, t1][1..] == [t1];
  }

  /** In any graph: an object restriction `r` on `p` whose `owl:onClass` is
      `a`, reached from `a` after `a` was marked, adds the edge `(a, p, a)`,
      stops at the visited `a`, and is marked. */
  lemma RestrictionBackToVisited(g: Graph, a: Term, r: Term, p: Term, fuel: nat)
    requires fuel >= 2 && a != r
    requires Triple(r, RdfType, OwlRestriction) in g
    requires forall t :: t in TriplesOf(g, r) ==> t.p != OwlEquivalentClass && t.p != OwlIntersectionOf
    requires Objects(g, r, OwlOnProperty) == [p] && Triple(p, RdfType, OwlDatatypeProperty) !in g
    requires Objects(g, r, OwlOnClass) == [a]
    ensures Traverse(g, r, a, State([], {a}, []), fuel) == Ok(State([Edge(a, p, a)], {a, r}, []))
  {
    var st1 := State([], {a}, []);
    var st2 := State([Edge(a, p, a)], {a}, []);
    assert Last([p]) == p;
    TraversalRules.OnClassRestriction(g, r, a, st1, fuel - 1, a);
    assert st1.(edges := st1.edges + [Edge(a, p, a)]) == st2;
    assert Traverse(g, a, a, st2, fuel - 1) == Ok(st2);
    assert Restriction(g, r, a, st1, fuel - 1) == Ok(Iteration(st2, true));
    TraversalRules.RestrictionDispatchedOnce(g, r, a, st1, fuel);
    assert st2.(visited := st2.visited + {r}) == State([Edge(a, p, a)], {a, r}, []);
  }
}

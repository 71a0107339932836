/** The two collection loops of `graph_traversal`, described member by member.

    Both loops walk a decoded collection in order, thread the state from one
    member to the next, and stop at the first exception. They differ only in
    what one member does:
      - an `owl:intersectionOf` member is traversed under the display subject
        of the class being expanded;
      - an `owl:unionOf` member first gets the edge `(display, prop, x)` and is
        then traversed as its own display subject.
    `Run` says what a successful pass over the members is without reference
    to the loops; the lemmas show that the loops of `Traversal` are exactly
    such passes, and fail exactly where a member fails.
 */
module TraversalLoops {
  import opened Wrappers
  import opened Rdf
  import opened Traversal

  /** How a member of a collection is visited. */
  datatype Visit =
    | KeepDisplay(display: Term)
    | OwnDisplay(display: Term, prop: Term)

  /** What visiting member `x` does to the state. */
  function Step(g: Graph, v: Visit, x: Term, s: State, fuel: nat): Result<State> {
    match v
    case KeepDisplay(d) => Traverse(g, x, d, s, fuel)
    case OwnDisplay(d, p) => Traverse(g, x, x, s.(edges := s.edges + [Edge(d, p, x)]), fuel)
  }

  /** The loop of `Traversal` that visits members as `v` says. */
  function Loop(g: Graph, v: Visit, members: seq<Term>, st: State, fuel: nat): Result<State> {
    match v
    case KeepDisplay(d) => TraverseEach(g, members, d, st, fuel)
    case OwnDisplay(d, p) => TraverseUnion(g, members, d, p, st, fuel)
  }

  /** `states` is a successful pass over `members`: visiting member `i`
      takes `states[i]` to `states[i + 1]`. */
  ghost predicate Run(g: Graph, v: Visit, members: seq<Term>, states: seq<State>, fuel: nat) {
    && |states| == |members| + 1
    && forall i :: 0 <= i < |members| ==> Step(g, v, members[i], states[i], fuel) == Ok(states[i + 1])
  }

  /** The loop visits the first member, and on success goes on with the rest
      from the state that left; an exception of the first member is the
      loop's. */
  lemma LoopCons(g: Graph, v: Visit, members: seq<Term>, st: State, fuel: nat)
    requires members != []
    ensures Loop(g, v, members, st, fuel) ==
      match Step(g, v, members[0], st, fuel)
      case Err(e) => Err(e)
      case Ok(s) => Loop(g, v, members[1..], s, fuel)
  {
  }

  /** An empty collection leaves the state as it is. */
  lemma LoopNil(g: Graph, v: Visit, st: State, fuel: nat)
    ensures Loop(g, v, [], st, fuel) == Ok(st)
  {
  }

  /** A pass over `[x] + rest` is a step on `x` followed by a pass over
      `rest`. */
  lemma RunCons(g: Graph, v: Visit, x: Term, rest: seq<Term>, states: seq<State>, fuel: nat)
    requires |states| >= 2
    ensures Run(g, v, [x] + rest, states, fuel) <==>
      Step(g, v, x, states[0], fuel) == Ok(states[1]) && Run(g, v, rest, states[1..], fuel)
  {
    var members := [x] + rest;
    if Step(g, v, x, states[0], fuel) == Ok(states[1]) && Run(g, v, rest, states[1..], fuel) {
      forall i | 0 <= i < |members|
        ensures Step(g, v, members[i], states[i], fuel) == Ok(states[i + 1])
      {
        if i > 0 {
          assert members[i] == rest[i - 1] && states[i] == states[1..][i - 1];
        }
      }
    }
    if Run(g, v, members, states, fuel) {
      assert members[0] == x;
      forall i | 0 <= i < |rest|
        ensures Step(g, v, rest[i], states[1..][i], fuel) == Ok(states[1..][i + 1])
      {
        assert rest[i] == members[i + 1];
      }
    }
  }

  /** Every successful loop is a pass over its members, from the state it
      started in to the state it returns. */
  lemma {:induction false} LoopRuns(g: Graph, v: Visit, members: seq<Term>, st: State, fuel: nat)
    returns (states: seq<State>)
    requires Loop(g, v, members, st, fuel).Ok?
    ensures Run(g, v, members, states, fuel)
    ensures states[0] == st && states[|members|] == Loop(g, v, members, st, fuel).value
    decreases |members|
  {
    if members == [] {
      LoopNil(g, v, st, fuel);
      states := [st];
    } else {
      LoopCons(g, v, members, st, fuel);
      var s := Step(g, v, members[0], st, fuel).value;
      var tail := LoopRuns(g, v, members[1..], s, fuel);
      states := [st] + tail;
      assert states[1..] == tail;
      assert [members[0]] + members[1..] == members;
      RunCons(g, v, members[0], members[1..], states, fuel);
    }
  }

  /** Conversely, every pass over the members is what the loop does. */
  lemma {:induction false} RunIsLoop(g: Graph, v: Visit, members: seq<Term>, states: seq<State>, fuel: nat)
    requires Run(g, v, members, states, fuel)
    ensures Loop(g, v, members, states[0], fuel) == Ok(states[|members|])
    decreases |members|
  {
    if members == [] {
      LoopNil(g, v, states[0], fuel);
    } else {
      assert [members[0]] + members[1..] == members;
      RunCons(g, v, members[0], members[1..], states, fuel);
      RunIsLoop(g, v, members[1..], states[1..], fuel);
      LoopCons(g, v, members, states[0], fuel);
    }
  }

  /** Every failing loop failed at some member `k`: the members before it
      were passed over, and `k` raised the loop's exception. */
  lemma {:induction false} LoopFails(g: Graph, v: Visit, members: seq<Term>, st: State, fuel: nat)
    returns (states: seq<State>, k: nat)
    requires Loop(g, v, members, st, fuel).Err?
    ensures k < |members| && Run(g, v, members[..k], states, fuel) && states[0] == st
    ensures Step(g, v, members[k], states[k], fuel) == Err(Loop(g, v, members, st, fuel).error)
    decreases |members|
  {
    LoopCons(g, v, members, st, fuel);
    var first := Step(g, v, members[0], st, fuel);
    if first.Err? {
      states, k := [st], 0;
    } else {
      var tail, k' := LoopFails(g, v, members[1..], first.value, fuel);
      states, k := [st] + tail, k' + 1;
      assert states[1..] == tail && states[k] == tail[k'];
      assert members[..k] == [members[0]] + members[1..][..k'];
      assert members[k] == members[1..][k'];
      RunCons(g, v, members[0], members[1..][..k'], states, fuel);
    }
  }

  /** Conversely, a member that raises after the members before it were
      passed over makes the loop raise the same exception. */
  lemma {:induction false} FailedStepFailsLoop(g: Graph, v: Visit, members: seq<Term>, states: seq<State>, k: nat, e: Raised, fuel: nat)
    requires k < |members| && Run(g, v, members[..k], states, fuel)
    requires Step(g, v, members[k], states[k], fuel) == Err(e)
    ensures Loop(g, v, members, states[0], fuel) == Err(e)
    decreases k
  {
    LoopCons(g, v, members, states[0], fuel);
    if k > 0 {
      assert members[..k] == [members[0]] + members[1..][..k - 1];
      RunCons(g, v, members[0], members[1..][..k - 1], states, fuel);
      assert members[1..][k - 1] == members[k] && states[1..][k - 1] == states[k];
      FailedStepFailsLoop(g, v, members[1..], states[1..], k - 1, e, fuel);
    }
  }
}

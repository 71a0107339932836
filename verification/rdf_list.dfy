/** RDF collections: a chain of nodes, each with an `rdf:first` (the item) and
    an `rdf:rest` (the next node), ending in `rdf:nil` (RDF Schema 1.1,
    section 5.2 "RDF Collections").

    `array2list(term, ag)` walks such a chain and appends the items to `ag`.
    It takes the LAST object of `rdf:first` and of `rdf:rest` (`.pop()`),
    raises IndexError when either is missing, and tests for `rdf:nil` only on
    the `rest` it just read, never on the node it was called with.
 */
module RdfList {
  import opened Wrappers
  import opened Rdf

  /** `array2list(head, ag)`. `fuel` is the remaining call depth; each call
      costs one, and running out stands for Python's RecursionError. */
  function Decode(g: Graph, head: Term, ag: seq<Term>, fuel: nat): (r: Result<seq<Term>>)
    decreases fuel
    ensures r.Ok? ==> |r.value| > |ag| && r.value[..|ag|] == ag
  {
    if fuel == 0 then Err(RecursionError)
    else
      var firsts := Objects(g, head, RdfFirst);
      if firsts == [] then Err(IndexError)
      else
        var rests := Objects(g, head, RdfRest);
        if rests == [] then Err(IndexError)
        else
          var items := ag + [Last(firsts)];
          if Last(rests) == RdfNil then Ok(items)
          else Decode(g, Last(rests), items, fuel - 1)
  }

  /** `node` holds `item` and points to `next`, as `.pop()` reads them. */
  predicate Link(g: Graph, node: Term, item: Term, next: Term) {
    && Objects(g, node, RdfFirst) != [] && Last(Objects(g, node, RdfFirst)) == item
    && Objects(g, node, RdfRest) != [] && Last(Objects(g, node, RdfRest)) == next
  }

  /** `nodes[0]` starts a collection holding `items`: `nodes` are the nodes
      visited, the last of which is `rdf:nil`, and no earlier `rest` is
      `rdf:nil`. */
  ghost predicate Chain(g: Graph, nodes: seq<Term>, items: seq<Term>) {
    && |items| > 0
    && |nodes| == |items| + 1
    && nodes[|items|] == RdfNil
    && (forall i :: 0 <= i < |items| ==> Link(g, nodes[i], items[i], nodes[i + 1]))
    && (forall i :: 0 < i < |items| ==> nodes[i] != RdfNil)
  }

  /** Whatever `array2list` returns is `ag` followed by the items of a
      collection starting at `head`, of at most `fuel` items. */
  lemma {:induction false} DecodeSound(g: Graph, head: Term, ag: seq<Term>, fuel: nat)
    returns (nodes: seq<Term>, items: seq<Term>)
    requires Decode(g, head, ag, fuel).Ok?
    ensures Decode(g, head, ag, fuel).value == ag + items
    ensures Chain(g, nodes, items) && nodes[0] == head && |items| <= fuel
    decreases fuel
  {
    var first, next := DecodedLink(g, head, ag, fuel);
    if next == RdfNil {
      nodes, items := [head, next], [first];
    } else {
      var nodes', items' := DecodeSound(g, next, ag + [first], fuel - 1);
      DecodeStep(g, head, first, next, ag, fuel);
      ChainCons(g, head, first, nodes', items');
      assert ag + [first] + items' == ag + ([first] + items');
      nodes, items := [head] + nodes', [first] + items';
    }
  }

  /** A node that decodes has a link: the first item, and the node after it,
      which ends the collection exactly when it is `rdf:nil`. */
  lemma DecodedLink(g: Graph, head: Term, ag: seq<Term>, fuel: nat) returns (item: Term, next: Term)
    requires Decode(g, head, ag, fuel).Ok?
    ensures fuel > 0 && Link(g, head, item, next)
    ensures next == RdfNil ==> Decode(g, head, ag, fuel) == Ok(ag + [item])
  {
    item, next := Last(Objects(g, head, RdfFirst)), Last(Objects(g, head, RdfRest));
  }

  /** A link in front of a chain that does not start at `rdf:nil` is a
      longer chain. */
  lemma ChainCons(g: Graph, head: Term, item: Term, nodes: seq<Term>, items: seq<Term>)
    requires Chain(g, nodes, items) && Link(g, head, item, nodes[0]) && nodes[0] != RdfNil
    ensures Chain(g, [head] + nodes, [item] + items)
  {
    var ns, its := [head] + nodes, [item] + items;
    forall i | 0 < i < |its|
      ensures ns[i] == nodes[i - 1] && its[i] == items[i - 1] && ns[i + 1] == nodes[i]
    {
    }
  }

  /** A collection of `n` items decodes, with at least `n` calls of depth to
      spare, to exactly its items in order. */
  lemma {:induction false} DecodeComplete(g: Graph, nodes: seq<Term>, items: seq<Term>, ag: seq<Term>, fuel: nat)
    requires Chain(g, nodes, items) && fuel >= |items|
    ensures Decode(g, nodes[0], ag, fuel) == Ok(ag + items)
    decreases fuel
  {
    assert Link(g, nodes[0], items[0], nodes[1]);
    if |items| > 1 {
      var nodes', items' := nodes[1..], items[1..];
      forall i | 0 <= i < |items'|
        ensures Link(g, nodes'[i], items'[i], nodes'[i + 1])
      {
        assert Link(g, nodes[i + 1], items[i + 1], nodes[i + 2]);
      }
      assert nodes[1] != RdfNil;
      DecodeComplete(g, nodes', items', ag + [items[0]], fuel - 1);
      assert ag + [items[0]] + items' == ag + items;
    } else {
      assert items == [items[0]];
    }
  }

  /** A chain whose node `nodes[|items|]` lacks `rdf:first` or `rdf:rest`,
      reached through links none of whose `rest`s is `rdf:nil`, raises
      IndexError: a collection with a missing link cannot be decoded. */
  lemma {:induction false} DecodeBrokenChain(g: Graph, nodes: seq<Term>, items: seq<Term>, ag: seq<Term>, fuel: nat)
    requires |nodes| == |items| + 1 && fuel > |items|
    requires forall i :: 0 <= i < |items| ==> Link(g, nodes[i], items[i], nodes[i + 1])
    requires forall i :: 0 < i <= |items| ==> nodes[i] != RdfNil
    requires Objects(g, nodes[|items|], RdfFirst) == [] || Objects(g, nodes[|items|], RdfRest) == []
    ensures Decode(g, nodes[0], ag, fuel) == Err(IndexError)
    decreases |items|
  {
    if |items| > 0 {
      LinksTail(g, nodes, items);
      assert forall i :: 0 < i <= |items[1..]| ==> nodes[1..][i] == nodes[i + 1];
      DecodeBrokenChain(g, nodes[1..], items[1..], ag + [items[0]], fuel - 1);
      DecodeStep(g, nodes[0], items[0], nodes[1], ag, fuel);
    } else {
      DecodeMissingLink(g, nodes[0], ag, fuel);
    }
  }

  /** A node without `rdf:first` or without `rdf:rest` raises IndexError. */
  lemma DecodeMissingLink(g: Graph, head: Term, ag: seq<Term>, fuel: nat)
    requires fuel > 0
    requires Objects(g, head, RdfFirst) == [] || Objects(g, head, RdfRest) == []
    ensures Decode(g, head, ag, fuel) == Err(IndexError)
  {
  }

  /** Past a link that is not the last, decoding goes on at the next node
      with the item appended. */
  lemma DecodeStep(g: Graph, head: Term, item: Term, next: Term, ag: seq<Term>, fuel: nat)
    requires fuel > 0 && Link(g, head, item, next) && next != RdfNil
    ensures Decode(g, head, ag, fuel) == Decode(g, next, ag + [item], fuel - 1)
  {
  }

  /** The links after the first. */
  lemma LinksTail(g: Graph, nodes: seq<Term>, items: seq<Term>)
    requires |nodes| == |items| + 1 && |items| > 0
    requires forall i :: 0 <= i < |items| ==> Link(g, nodes[i], items[i], nodes[i + 1])
    ensures Link(g, nodes[0], items[0], nodes[1])
    ensures forall i :: 0 <= i < |items[1..]| ==> Link(g, nodes[1..][i], items[1..][i], nodes[1..][i + 1])
  {
    forall i | 0 <= i < |items[1..]|
      ensures Link(g, nodes[1..][i], items[1..][i], nodes[1..][i + 1])
    {
      assert Link(g, nodes[i + 1], items[i + 1], nodes[i + 2]);
    }
  }

  /** A collection whose last `rest` points back to its own node never ends:
      no call depth is enough, and the decoder can only run out of it. */
  lemma {:induction false} DecodeSelfLoop(g: Graph, node: Term, ag: seq<Term>, fuel: nat)
    requires node != RdfNil
    requires Objects(g, node, RdfFirst) != []
    requires Objects(g, node, RdfRest) != [] && Last(Objects(g, node, RdfRest)) == node
    ensures Decode(g, node, ag, fuel) == Err(RecursionError)
    decreases fuel
  {
    if fuel > 0 {
      DecodeSelfLoop(g, node, ag + [Last(Objects(g, node, RdfFirst))], fuel - 1);
    }
  }
}

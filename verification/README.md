# rdfvis core in Dafny

A model of the core of rdfvis, a script that draws an OWL class as a Mermaid
diagram, with proofs about that model. The core has four parts:

- **The class-expression traversal** (`graph_traversal` in `vis.py`).
  - Starting from a class, it follows `owl:equivalentClass` and
    `owl:intersectionOf`.
  - It interprets `owl:Restriction` nodes by a fixed priority: a datatype
    property is skipped; otherwise the first of these that applies wins:
    exactly one `owl:onClass`; exactly one `owl:someValuesFrom` (edges only
    when its value has exactly one `owl:unionOf`); exactly one
    `owl:allValuesFrom`;
    `owl:minCardinality`; a printed diagnostic.
  - It collects an ordered edge list `(display subject, property, class)`
    and a visited set.
- **The RDF collection decoder** (`array2list`). It walks
  `rdf:first`/`rdf:rest` chains down to `rdf:nil`, as described in section 5.2
  of RDF Schema 1.1, "RDF Collections".
- **Prefix compression and expansion.** These are `format_values` and
  `expand_prefix_uri` in Python, and `formatValues` and `expandPrefixUri` in
  `bin/vis.mjs`. Both use one ordered table of eleven (prefix, namespace)
  pairs. The two languages are modelled side by side because they differ off
  the happy path:
  - A value that contains its namespace a second time: Python raises
    ValueError; JavaScript gives `prefix:` and the text after the last
    occurrence.
  - Text to expand without a colon: Python raises ValueError; JavaScript
    expands a bare known prefix to its namespace and returns any other text
    unchanged.
  - An unknown prefix: Python raises KeyError; JavaScript returns its input.
  - A value no namespace begins, and `http:`/`https:` text to expand, come
    back unchanged in both.
- **Mermaid rendering.**
  - `node_generator` and `NodeStructure.get_node` hand each distinct term the
    next letter of A–Z, a–z. The first mention is annotated `A(prefix:local)`;
    later mentions are the bare letter.
  - `mermaid_formatter` writes the header and then one line per edge.
  - `find_label` picks a display label.

## How it is modelled

- **Graph.** An rdflib graph is an immutable `seq<Triple>`.
  - `store.triples((s, None, None))` is `Rdf.TriplesOf`: the triples with
    subject `s`, in sequence order.
  - `store.objects(s, p)` is `Rdf.Objects`.
  - `.pop()` on such a list is `Wrappers.Last`.
- **Exceptions.** An exception that can escape (IndexError, KeyError,
  ValueError, StopIteration, RecursionError) is the `Err` case of
  `Wrappers.Result`.
- **Traversal state.** The edge list and visited set are threaded through the
  recursion as a value (`Traversal.State`). The source mutates one list and
  one set in place and hands the same objects back, so this is the same
  computation.
- **Call depth.** Every recursive call takes `fuel`, the call depth still
  available. Running out is `Err(RecursionError)`. This is needed because the
  traversal does not always end: see `TraversalExamples.CyclicNeverEnds`.
- **Node state.** `nodes`, a module-level `NodeStructure` in the source, is
  passed in and handed back as `Mermaid.Nodes`.
- **Behaviour of the code worth knowing.**
  - The traversal is not guaranteed to end on a cyclic class definition.
    The visited mark is added at the end of each loop iteration, not on
    entry, so `A ≡ [onClass A]` recurses until the stack runs out
    (`TraversalExamples.CyclicNeverEnds`). Whether it ends depends on the
    order of the triples: with a plain triple `A p A` listed first, `A` is
    marked before the cycle comes back to it, and the traversal ends
    (`TraversalExamples.GuardedCycleEnds`).
  - There is no `owl:hasValue` branch. Such a restriction falls through to
    `owl:minCardinality` or to the diagnostic.
  - A `owl:someValuesFrom` whose value does not have exactly one
    `owl:unionOf` adds no edge and leaves the term unmarked.
  - A collection node with several `rdf:first` or `rdf:rest` values is not
    an error: the last one is used.

Module layout, one file each: `Wrappers`, `Strings`, `Rdf`, `RdfList`,
`Prefixes`, `Traversal`, `TraversalLoops`, `TraversalProperties`,
`TraversalRules`, `TraversalExamples`, `Labels`, `Mermaid`.

## Model

| member | source | states |
|---|---|---|
| Rdf.TriplesOf | vis.py:155 | the triples listed for a subject are exactly the graph's triples with that subject |
| Rdf.Objects | vis.py:174 | the objects listed for a subject and predicate are exactly those `o` whose triple is in the graph |
| RdfList.Decode | vis.py:132-141 | a decoded list starts with the accumulator `ag` it was given and is strictly longer |
| RdfList.DecodeSound | vis.py:132-141 | a successful decode is `ag` followed by the items of a chain of nodes from the head to `rdf:nil` with no earlier `rdf:nil`, each item the last `rdf:first` of its node, at most one item per unit of call depth |
| RdfList.DecodeComplete | vis.py:132-141 | conversely, every such chain of n items decodes to `ag` followed by exactly its items when at least n calls of depth are available |
| RdfList.DecodeBrokenChain | vis.py:136-137 | a chain that reaches a node lacking `rdf:first` or `rdf:rest` before `rdf:nil` raises IndexError |
| RdfList.DecodeMissingLink | vis.py:136-137 | a head without `rdf:first` or without `rdf:rest` raises IndexError |
| RdfList.DecodeStep | vis.py:136-141 | past a node whose rest is not `rdf:nil`, decoding continues at the rest with the item appended |
| RdfList.DecodeSelfLoop | vis.py:137-141 | a node whose last `rdf:rest` is itself is never decoded: every call depth runs out |
| Traversal.Traverse | vis.py:144-154 | the traversal only appends edges and only adds visited terms; a term already visited returns the state unchanged |
| Traversal.Iterate | vis.py:155-220 | the loop over a term's triples only appends to the state |
| Traversal.Dispatch | vis.py:156-220 | one loop iteration only appends; an iteration that leaves by `continue` leaves the state unchanged and does not mark the term |
| Traversal.Restriction | vis.py:173-218 | interpreting a restriction only appends; when it ends in `continue` the state is unchanged |
| Traversal.TraverseEach | vis.py:163-166 | following the members of an intersection only appends to the state |
| Traversal.TraverseUnion | vis.py:200-204 | following the members of a union only appends to the state |
| TraversalLoops.LoopCons | vis.py:163-166 | both collection loops visit the first member and, when that succeeds, go on with the rest from the state it left; the first member's exception is the loop's. An intersection member is traversed under the class's display subject; a union member (vis.py:200-204) first gets the edge `(display, prop, x)` and is then traversed as its own display subject |
| TraversalLoops.LoopNil | vis.py:163 | an empty collection leaves the state unchanged |
| TraversalLoops.LoopRuns | vis.py:200-204 | every successful loop is a pass over the members in order: visiting member i takes the state left by member i-1 to the one member i+1 starts from, from the loop's starting state to the state it returns |
| TraversalLoops.RunIsLoop | vis.py:163-166 | conversely, every such pass over the members is what the loop returns |
| TraversalLoops.LoopFails | vis.py:200-204 | every failing loop failed at some member k: the members before k were passed over, and visiting member k raised the loop's exception |
| TraversalLoops.FailedStepFailsLoop | vis.py:163-166 | conversely, a member that raises after the members before it were passed over makes the loop raise that exception |
| TraversalProperties.TraverseProduces | vis.py:144-221 | every edge a traversal appends is grounded in the graph (its property is an `owl:onProperty` value, its class an `owl:onClass` or `owl:allValuesFrom` value or a collection item) and hangs off the display subject: its subject is the display subject or the class of an earlier new edge |
| TraversalProperties.IterateProduces | vis.py:155-220 | the same, for the loop over a term's triples |
| TraversalProperties.RestrictionProduces | vis.py:173-218 | the same, for one restriction |
| TraversalProperties.DecodedItemsAreFirsts | vis.py:132-141 | every item of a decoded collection is an `rdf:first` value in the graph |
| TraversalProperties.PropertyIsOnProperty | vis.py:174 | the property of a restriction edge is an `owl:onProperty` value in the graph |
| TraversalRules.RestrictionPriority | vis.py:174-218 | the restriction branches in priority order: no `onProperty` raises IndexError; a datatype property adds nothing and leaves the term unmarked; exactly one `onClass` adds that edge first and marks; else exactly one `someValuesFrom` without exactly one `unionOf` adds nothing and leaves the term unmarked; else exactly one `allValuesFrom` adds that edge first and marks; else `minCardinality` adds nothing and leaves the term unmarked; else the diagnostic is recorded and the term marked |
| TraversalRules.OnClassRestriction | vis.py:188-193 | with exactly one `owl:onClass` target, the restriction appends `(display, prop, target)`, traverses the target as its own display subject, and marks the node; an exception there is the restriction's |
| TraversalRules.UnionRestriction | vis.py:195-204 | with exactly one `owl:someValuesFrom` value that has exactly one `owl:unionOf`, the restriction decodes that collection, raising what the decoding raises, then runs the union loop over the members, and marks the node |
| TraversalRules.AllValuesRestriction | vis.py:206-211 | with exactly one `owl:allValuesFrom` value and no single `onClass` or `someValuesFrom`, the restriction appends `(display, prop, value)`, traverses the value as its own display subject, and marks the node; an exception there is the restriction's |
| TraversalRules.IntersectionIsTransparent | vis.py:162-166 | a class whose only triple is `owl:intersectionOf l` decodes `l`, runs the intersection loop over the members under the class's display subject, and is marked afterwards; an exception from the decoding or from a member is the class's |
| TraversalRules.PlainTripleMarks | vis.py:168-220 | a triple that is neither `equivalentClass` nor `intersectionOf`, of a term that is not an unvisited restriction node, changes nothing but reaches the marking |
| TraversalRules.UnionFanOut | vis.py:200-204 | for union members x1..xn the edges `(display, prop, xi)` are appended in member order at increasing positions, the first at once, and the edges between two of them hang off the earlier member |
| TraversalRules.SomeValuesUnionFanOut | vis.py:195-204 | a `someValuesFrom` whose value has exactly one `unionOf` decoding to n members appends the n edges `(display, prop, xi)` in member order, starting at once |
| TraversalRules.OnClassErrorPropagates | vis.py:188-193 | an error raised below an `onClass` edge is the restriction's error |
| TraversalRules.EquivalentClassIsTransparent | vis.py:157-160 | a class whose only triple is `owl:equivalentClass o` is traversed as `o` is, with the same display subject, and is marked afterwards |
| TraversalRules.EquivalentClassPropagatesError | vis.py:157-160 | an error raised while following `owl:equivalentClass` is the class's error |
| TraversalRules.NoTriplesNeverMarked | vis.py:155-221 | a term without triples is returned unchanged and is not marked visited |
| TraversalRules.IterateAfterMarked | vis.py:168-172 | once a restriction node is marked, its remaining triples are all skipped |
| TraversalRules.IterateRestrictionNode | vis.py:168-220 | the loop over a restriction node's triples is one interpretation of the restriction, marked afterwards unless it ended in `continue` |
| TraversalRules.RestrictionDispatchedOnce | vis.py:153-220 | traversing an unvisited restriction node interprets the restriction exactly once and marks the node unless that ended in `continue` |
| TraversalRules.RestrictionErrorPropagates | vis.py:168-218 | an error in interpreting a restriction node is the node's error |
| TraversalRules.OnClassNodePropagatesError | vis.py:188-193 | an error below the `onClass` edge of a restriction node is the node's error |
| TraversalRules.MissingOnPropertyRaises | vis.py:174 | a restriction node without `owl:onProperty` raises IndexError |
| TraversalRules.MarkingTripleMarks | vis.py:155-220 | a loop that meets an `equivalentClass` or `intersectionOf` triple, or any triple of a term that is not an `owl:Restriction`, and succeeds has marked the term |
| TraversalRules.ClassIsMarked | vis.py:153-220 | a term with such a triple is visited after a successful traversal |
| TraversalExamples.CycleNeverEnds | vis.py:157-193 | in any graph where `a ≡ r` and `r` is an object restriction with `onClass a`, the traversal of `a` raises RecursionError for every call depth |
| TraversalExamples.CycleStep | vis.py:157-193 | one round of that cycle: `a` re-enters itself, unmarked, two calls deeper, with one more edge |
| TraversalExamples.CyclicNeverEnds | vis.py:157-220 | the concrete graph `A ≡ [onProperty p; onClass A]` is never traversed to the end from the initial state |
| TraversalExamples.RestrictionBackToVisited | vis.py:188-193 | in any graph, an object restriction `r` on `p` with `onClass a`, reached from the marked `a`, adds the one edge `(a, p, a)`, stops at `a`, and is marked |
| TraversalExamples.PlainTripleFirst | vis.py:155-220 | in any graph, a class that is no restriction, with triples `a p a` and then `a ≡ o`, is marked by the plain triple before `o` is traversed, and ends where that traversal of `o` ends |
| TraversalExamples.GuardedCycleEnds | vis.py:155-220 | the same cycle with `A p A` in front of `A ≡ R` ends, given three calls of depth: one edge `(A, p, A)`, `A` and `R` visited, nothing reported |
| Prefixes.TableIsWellFormed | vis.py:10-22 | the prefix table's prefixes are distinct, colon-free and not `http`/`https`; its namespaces are non-empty and none is a prefix of another |
| Prefixes.FirstMatch | vis.py:91-92 | the first table entry, in table order, whose namespace begins the value; none exactly when no namespace does |
| Prefixes.MatchIsUnique | vis.py:91-92 | at most one namespace begins a value, so the first match is the only one |
| Prefixes.LookupFindsEntry | vis.py:106 | the dictionary lookup of a table prefix yields its own namespace |
| Prefixes.LookupMisses | vis.py:106 | a key that is no table prefix is not found |
| Prefixes.LookupSound | vis.py:106 | a lookup that succeeds found an entry of the table with that key |
| Prefixes.PyFormatThenExpand | vis.py:86-109 | a value that starts with a namespace occurring only once in it is shortened to `prefix:rest` and expands back to itself |
| Prefixes.PyExpandThenFormat | vis.py:86-109 | `prefix:local` expands to namespace plus `local` and shortens back, when `local` does not contain the namespace |
| Prefixes.PyFormatRepeatedNamespace | vis.py:93 | a value containing its matching namespace again raises ValueError in Python |
| Prefixes.FormatWithoutMatch | vis.py:91-95 | a value no namespace begins is returned unchanged, in both languages |
| Prefixes.PyExpandWithoutColon | vis.py:103 | expanding text without a colon raises ValueError in Python |
| Prefixes.ExpandPassesUrlsThrough | vis.py:104-105 | `http:…` and `https:…` are returned unchanged, in both languages |
| Prefixes.ExpandUnknownPrefix | vis.py:106 | an unknown prefix raises KeyError in Python and is returned unchanged in JavaScript |
| Prefixes.JsExpandKnownPrefix | bin/vis.mjs:55-61 | a known prefix expands to its namespace followed by the rest, every later colon kept |
| Prefixes.ExpandBarePrefix | bin/vis.mjs:55-61 | a bare prefix without a colon expands to its namespace in JavaScript and raises ValueError in Python |
| Prefixes.JsFormatMatched | bin/vis.mjs:38-44 | a matched value becomes `prefix:` followed by the text after the last occurrence of the namespace |
| Prefixes.JsRoundTrips | bin/vis.mjs:38-61 | `expandPrefixUri(formatValues(ns + local))` is `ns + local` and `formatValues(expandPrefixUri(p + ":" + local))` is `p + ":" + local`, when `local` does not contain the namespace |
| Prefixes.PyFormatAgreesWithJs | vis.py:86-95 | whenever the Python shortening succeeds it gives the same text as the JavaScript one |
| Prefixes.PyExpandAgreesWithJs | vis.py:98-109 | whenever the Python expansion succeeds it gives the same text as the JavaScript one |
| Strings.JoinSplit | bin/vis.mjs:56-60 | joining the pieces of a split with the separator gives back the string |
| Strings.SplitSingleIffAbsent | vis.py:103 | a split has one piece exactly when the separator does not occur |
| Strings.SplitLastPiece | bin/vis.mjs:42 | the last piece of a split is the text after the last occurrence of the separator, and contains no separator |
| Labels.FindLabel | vis.py:112-129 | a label is the value of a label predicate of the term, or the term's shortened form |
| Labels.FirstUnique | vis.py:120-128 | the value of the first predicate, in order, with exactly one value, and none exactly when no predicate has one |
| Labels.FindLabelIsFirstUnique | vis.py:112-129 | `find_label` is the first label predicate with a unique value, else the shortened term |
| Labels.PrefLabelWins | vis.py:120-122 | a unique `skos:prefLabel` is the label |
| Labels.AmbiguousLabelFallsThrough | vis.py:120-125 | an ambiguous `skos:prefLabel` is passed over for a unique `rdfs:label` |
| Labels.UnlabelledTermIsCompressed | vis.py:126-129 | without a unique label the result is the shortened term, and the term itself when no namespace matches |
| Mermaid.GetNode | vis.py:69-80 | a known term gives its bare letter and changes nothing; a new term takes the next letter, annotated with its shortened name; with all 52 letters issued a new term raises StopIteration |
| Mermaid.AlphabetAscending | vis.py:46-48 | the generator yields 52 strictly ascending, hence distinct, letters |
| Mermaid.AlphabetIsLiteral | vis.py:46-48 | the letters handed out are exactly the string `A`–`Z` followed by `a`–`z`, in that order |
| Mermaid.NextLetterKeepsValid | vis.py:74-78 | handing the next letter to a new term keeps the letters a bijection onto a prefix of the alphabet |
| Mermaid.GetNodeKeepsValid | vis.py:69-80 | `get_node` keeps the letters a bijection onto a prefix of the alphabet |
| Mermaid.FormatLinks | vis.py:229-233 | the loop over links never changes the letter of a term already named |
| Mermaid.MermaidFormatter | vis.py:224-235 | the output starts with the header `    graph TB` and keeps every letter already issued |
| Mermaid.FormatLinksNodes | vis.py:229-233 | the node state after the loop is that of `get_node` on subject then object of each link, in order |
| Mermaid.FormatLinksAssigns | vis.py:229-233 | after the loop every mentioned term has a letter; the new ones, in order of first mention, get the next letters in alphabet order; distinct terms have distinct letters |
| Mermaid.TooManyTermsFail | vis.py:46-48 | more distinct terms than letters left makes the rendering fail |
| Mermaid.FormatLinksIsExpected | vis.py:229-233 | the loop's text is one line per link, in order, each mention the term's letter, annotated exactly on its first mention |
| Mermaid.MermaidIsExpected | vis.py:224-235 | the diagram is the header followed by those lines |
| Mermaid.FreshLetters | vis.py:56-61 | from a fresh `NodeStructure`, the i-th distinct term mentioned gets the i-th letter |

## Left out

- `main` in both scripts is not modelled: argument parsing, file reading, RDF parsing, the CLI output and `createQuadsFromFile`. `deserialize`, which it calls, is not defined in the source.
- rdflib's `Graph` and n3's `Store` are replaced by a triple sequence whose order is the iteration order. rdflib's own order is not visible in the source.
- Duplicate triples: an rdflib graph is a set, and the model's sequence may repeat a triple. Every lemma holds for any sequence, so this only widens the inputs.
- The `print` diagnostic at vis.py:216-218 is recorded as the restriction term, appended to `State.reports`. The printed triples are not modelled.
- The literal value behind a label is modelled as its text. Datatypes and language tags of literals are not modelled.
- `GistClass` only holds two constants. `gist:name` is modelled as a constant IRI.
- The alphabet is computed from character codes (`Mermaid.Letter`) rather than unpacked from the string literal; `Mermaid.AlphabetIsLiteral` proves the two are the same 52 letters.
- Traversal.Dispatch, Traversal.Restriction, Traversal.TraverseEach, Traversal.TraverseUnion: their own contracts state only that the state grows by appending and that a `continue` changes nothing. What each branch and loop does exactly is stated by the lemmas of `TraversalRules` and `TraversalLoops`: `EquivalentClassIsTransparent`, `IntersectionIsTransparent`, `PlainTripleMarks`, `OnClassRestriction`, `UnionRestriction`, `AllValuesRestriction`, `RestrictionPriority`, and `LoopCons` with its pass lemmas.
- TraversalRules.RestrictionPriority, TraversalRules.UnionFanOut: they state which edges come first and in what order, not what the recursion below them does. That is stated by the branch lemmas `OnClassRestriction`, `UnionRestriction` and `AllValuesRestriction` and by `TraversalLoops.LoopCons`.
- Traversal.Traverse: Python's fixed recursion limit becomes the `fuel` parameter, so RecursionError is raised at whatever depth the caller allows rather than at the interpreter's limit.
- Traversal.Traverse: on an exception the partly built edge list and visited set are not kept. The source mutates them in place before the exception escapes, but nothing in the script catches it.
- Mermaid.GetNode: when shortening the name of a new term raises ValueError, the source has already stored the letter and advanced the generator. The model returns only the error, not that node state. `mermaid_formatter` does not catch the error.
- Prefixes.ExpandUnknownPrefix: in JavaScript, `prefixes[prefix]` also finds keys inherited from `Object.prototype`, such as `constructor` or `toString`. The model treats those as unknown prefixes, so for them its JavaScript half states a wrong result: the input unchanged, where the script returns the inherited member's text followed by the local name. Object members are not modelled.
- RdfList.DecodeSound: the bound on the number of items is the fuel given, not Python's recursion limit.
- Terms are compared by value: an IRI, a blank node and a literal with the same text are different terms. `str(term)` is `Rdf.Text`.

/** The triple store, as the traversal sees it.

    An rdflib `Graph` is abstracted as an immutable sequence of triples; its
    iteration order, which the scripts do not control, is taken to be the
    sequence order. The two queries the scripts make are "the triples whose
    subject is `s`" (`store.triples((s, None, None))`, and `store.objects(s, p)`
    for the objects of those with predicate `p`) and membership
    (`(s, p, o) in store`).
 */
module Rdf {
  import Prefixes

  /** An RDF node: a URI, a blank node or a literal. Terms compare by kind and
      text, as rdflib identifiers do. */
  datatype Term = Iri(iri: string) | Blank(id: string) | Literal(lexical: string)

  datatype Triple = Triple(s: Term, p: Term, o: Term)

  type Graph = seq<Triple>

  /** `str(term)`. */
  function Text(t: Term): string {
    match t
    case Iri(u) => u
    case Blank(b) => b
    case Literal(l) => l
  }

  /** `store.triples((s, None, None))`, in store order. */
  function TriplesOf(g: Graph, s: Term): (r: seq<Triple>)
    ensures forall t :: t in r <==> t in g && t.s == s
    ensures |r| <= |g|
  {
    if g == [] then []
    else (if g[0].s == s then [g[0]] else []) + TriplesOf(g[1..], s)
  }

  /** `store.objects(subject=s, predicate=p)`, in store order. */
  function Objects(g: Graph, s: Term, p: Term): (r: seq<Term>)
    ensures forall o :: o in r <==> Triple(s, p, o) in g
    ensures |r| <= |g|
  {
    if g == [] then []
    else (if g[0].s == s && g[0].p == p then [g[0].o] else []) + Objects(g[1..], s, p)
  }

  /** `(s, p, None) in store`. */
  predicate HasPredicate(g: Graph, s: Term, p: Term) {
    Objects(g, s, p) != []
  }

  // Vocabulary used by the traversal and the label lookup.
  const RdfType := Iri(Prefixes.RdfNs + "type")
  const RdfFirst := Iri(Prefixes.RdfNs + "first")
  const RdfRest := Iri(Prefixes.RdfNs + "rest")
  const RdfNil := Iri(Prefixes.RdfNs + "nil")
  const RdfsLabel := Iri(Prefixes.RdfsNs + "label")
  const SkosPrefLabel := Iri(Prefixes.SkosNs + "prefLabel")
  const GistName := Iri(Prefixes.GistNs + "name")
  const OwlEquivalentClass := Iri(Prefixes.OwlNs + "equivalentClass")
  const OwlIntersectionOf := Iri(Prefixes.OwlNs + "intersectionOf")
  const OwlUnionOf := Iri(Prefixes.OwlNs + "unionOf")
  const OwlRestriction := Iri(Prefixes.OwlNs + "Restriction")
  const OwlOnProperty := Iri(Prefixes.OwlNs + "onProperty")
  const OwlOnClass := Iri(Prefixes.OwlNs + "onClass")
  const OwlSomeValuesFrom := Iri(Prefixes.OwlNs + "someValuesFrom")
  const OwlAllValuesFrom := Iri(Prefixes.OwlNs + "allValuesFrom")
  const OwlMinCardinality := Iri(Prefixes.OwlNs + "minCardinality")
  const OwlDatatypeProperty := Iri(Prefixes.OwlNs + "DatatypeProperty")
}

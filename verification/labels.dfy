/** `find_label`: the best display label of a term.

    The label predicates are tried in a fixed order, `skos:prefLabel`, then
    `rdfs:label`, then `gist:name`; a predicate is used only when the term
    has exactly one value for it, so an ambiguous label falls through to the
    next predicate. Without any, the term's text is compressed with the
    prefix table, which can raise ValueError.
 */
module Labels {
  import opened Wrappers
  import opened Rdf
  import Prefixes

  /** The label predicates, in the order they are tried. */
  const LabelPredicates := [SkosPrefLabel, RdfsLabel, GistName]

  /** `find_label(term)`. */
  function FindLabel(g: Graph, term: Term): (r: Result<string>)
    ensures r.Ok? ==>
      || (exists p, v :: p in LabelPredicates && Triple(term, p, v) in g && r.value == Text(v))
      || r == Prefixes.PyFormatValues(Text(term))
  {
    var prefLabels := Objects(g, term, SkosPrefLabel);
    if |prefLabels| == 1 then
      assert prefLabels[0] in prefLabels && LabelPredicates[0] == SkosPrefLabel;
      Ok(Text(prefLabels[0]))
    else
      var labels := Objects(g, term, RdfsLabel);
      if |labels| == 1 then
        assert labels[0] in labels && LabelPredicates[1] == RdfsLabel;
        Ok(Text(labels[0]))
      else
        var names := Objects(g, term, GistName);
        if |names| == 1 then
          assert names[0] in names && LabelPredicates[2] == GistName;
          Ok(Text(names[0]))
        else Prefixes.PyFormatValues(Text(term))
  }

  /** `r` is the value of the first predicate in `preds` for which `term`
      has exactly one value, and None when there is no such predicate. */
  ghost predicate IsFirstUnique(g: Graph, term: Term, preds: seq<Term>, r: Option<Term>) {
    && (r.Some? ==> exists i :: 0 <= i < |preds| && Objects(g, term, preds[i]) == [r.value] &&
                                 forall j :: 0 <= j < i ==> |Objects(g, term, preds[j])| != 1)
    && (r.None? <==> forall p :: p in preds ==> |Objects(g, term, p)| != 1)
  }

  /** The first predicate with a unique value, searched in order. */
  function FirstUnique(g: Graph, term: Term, preds: seq<Term>): (r: Option<Term>)
    ensures IsFirstUnique(g, term, preds, r)
  {
    if preds == [] then None
    else
      var values := Objects(g, term, preds[0]);
      if |values| == 1 then
        FirstUniqueHead(g, term, preds, values[0]);
        Some(values[0])
      else
        var rest := FirstUnique(g, term, preds[1..]);
        FirstUniqueTail(g, term, preds, rest);
        rest
  }

  /** A unique value of the first predicate is the answer. */
  lemma FirstUniqueHead(g: Graph, term: Term, preds: seq<Term>, v: Term)
    requires preds != [] && Objects(g, term, preds[0]) == [v]
    ensures IsFirstUnique(g, term, preds, Some(v))
  {
    assert preds[0] in preds;
  }

  /** Past a predicate without a unique value, the answer is that of the
      rest. */
  lemma FirstUniqueTail(g: Graph, term: Term, preds: seq<Term>, r: Option<Term>)
    requires preds != [] && |Objects(g, term, preds[0])| != 1
    requires IsFirstUnique(g, term, preds[1..], r)
    ensures IsFirstUnique(g, term, preds, r)
  {
    if r.Some? {
      var i :| 0 <= i < |preds[1..]| && Objects(g, term, preds[1..][i]) == [r.value] &&
               forall j :: 0 <= j < i ==> |Objects(g, term, preds[1..][j])| != 1;
      assert preds[i + 1] == preds[1..][i];
      forall j | 0 <= j < i + 1
        ensures |Objects(g, term, preds[j])| != 1
      {
        if j > 0 {
          assert preds[j] == preds[1..][j - 1];
        }
      }
      assert preds[i + 1] in preds;
    } else {
      forall p | p in preds
        ensures |Objects(g, term, p)| != 1
      {
        if p != preds[0] {
          assert p in preds[1..];
        }
      }
    }
  }

  /** `find_label` is "the first label predicate with a unique value, else the
      compressed term". */
  lemma FindLabelIsFirstUnique(g: Graph, term: Term)
    ensures FindLabel(g, term) ==
      match FirstUnique(g, term, LabelPredicates)
      case Some(v) => Ok(Text(v))
      case None => Prefixes.PyFormatValues(Text(term))
  {
    var preds := LabelPredicates;
    assert preds[1..] == [RdfsLabel, GistName];
    assert preds[1..][1..] == [GistName];
    assert preds[1..][1..][1..] == [];
  }

  /** A unique `skos:prefLabel` wins over every other label. */
  lemma PrefLabelWins(g: Graph, term: Term, v: Term)
    requires Objects(g, term, SkosPrefLabel) == [v]
    ensures FindLabel(g, term) == Ok(Text(v))
  {
  }

  /** An ambiguous predicate is passed over: with two or more
      `skos:prefLabel`s, a unique `rdfs:label` is used. */
  lemma AmbiguousLabelFallsThrough(g: Graph, term: Term, v: Term)
    requires |Objects(g, term, SkosPrefLabel)| != 1
    requires Objects(g, term, RdfsLabel) == [v]
    ensures FindLabel(g, term) == Ok(Text(v))
  {
  }

  /** Without a unique label the result is the prefixed form of the term, or
      the term itself when no namespace matches. */
  lemma UnlabelledTermIsCompressed(g: Graph, term: Term)
    requires forall p :: p in LabelPredicates ==> |Objects(g, term, p)| != 1
    ensures FindLabel(g, term) == Prefixes.PyFormatValues(Text(term))
    ensures Prefixes.FirstMatch(Text(term)).None? ==> FindLabel(g, term) == Ok(Text(term))
  {
    assert SkosPrefLabel in LabelPredicates && RdfsLabel in LabelPredicates && GistName in LabelPredicates;
    if Prefixes.FirstMatch(Text(term)).None? {
      Prefixes.FormatWithoutMatch(Text(term));
    }
  }
}

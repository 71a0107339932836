/** Mermaid rendering: `node_generator`, `NodeStructure.get_node` and
    `mermaid_formatter` of the Python script.

    Every distinct term of the diagram gets the next letter of A–Z, a–z the
    first time it is mentioned, and that mention is annotated with the
    term's prefixed form, `A(ex:Class)`; later mentions are the bare letter.
    The generator has 52 letters, and asking it for a 53rd raises
    StopIteration. The node state is a module-level singleton in the source;
    here it is passed in and handed back.
 */
module Mermaid {
  import opened Wrappers
  import opened Rdf
  import Prefixes
  import opened Traversal

  /** The letters `node_generator` yields, in order: A–Z, then a–z. */
  function Alphabet(): string { seq(52, Letter) }

  /** The `i`-th letter of the alphabet. */
  function Letter(i: int): char {
    if i < 0 || i >= 52 then ' '
    else if i < 26 then ('A' as int + i) as char
    else ('a' as int + i - 26) as char
  }

  /** The first line of every diagram. */
  const Header := "    graph TB\n"

  /** `NodeStructure`: the letter of every term mentioned so far, and how
      many letters the generator has handed out. */
  datatype Nodes = Nodes(letters: map<Term, char>, issued: nat)

  /** `NodeStructure()` as constructed at start-up. */
  const Fresh := Nodes(map[], 0)

  /** Rendered text together with the node state after rendering it. */
  datatype Rendered = Rendered(text: string, nodes: Nodes)

  /** The letters handed out are the first `issued` of the alphabet, one per
      term, no two terms sharing one. */
  predicate Valid(n: Nodes) {
    && n.issued <= |Alphabet()|
    && |n.letters| == n.issued
    && (forall t :: t in n.letters ==> n.letters[t] in Alphabet()[..n.issued])
    && (forall t, u :: t in n.letters && u in n.letters && t != u ==> n.letters[t] != n.letters[u])
  }

  /** `later` still gives every term of `earlier` the same letter. */
  predicate Keeps(earlier: Nodes, later: Nodes) {
    forall t :: t in earlier.letters ==> t in later.letters && later.letters[t] == earlier.letters[t]
  }

  /** A first mention: the letter, then the name in parentheses. */
  function Annotate(letter: char, name: string): string {
    [letter] + "(" + name + ")"
  }

  /** One diagram line: an arrow labelled with the property. */
  function Line(subject: string, property: string, obj: string): string {
    "      " + subject + " --" + property + "--> " + obj + "\n"
  }

  /** `nodes.get_node(uri)`. */
  function GetNode(n: Nodes, t: Term): (r: Result<Rendered>)
    ensures r.Ok? ==> Keeps(n, r.value.nodes) && r.value.nodes.letters.Keys == n.letters.Keys + {t}
    ensures r.Ok? ==> |r.value.text| > 0 && r.value.text[0] == r.value.nodes.letters[t]
    ensures r.Ok? ==> (|r.value.text| == 1 <==> t in n.letters)
    ensures r.Ok? ==> r.value.nodes.issued == n.issued + (if t in n.letters then 0 else 1)
    ensures r.Ok? && t !in n.letters ==> n.issued < |Alphabet()| && r.value.nodes.letters[t] == Alphabet()[n.issued]
    ensures r.Err? <==> t !in n.letters && (n.issued >= |Alphabet()| || Prefixes.PyFormatValues(Text(t)).Err?)
    ensures t !in n.letters && n.issued >= |Alphabet()| ==> r == Err(StopIteration)
  {
    if t in n.letters then Ok(Rendered([n.letters[t]], n))
    else if n.issued >= |Alphabet()| then Err(StopIteration)
    else
      var letter := Alphabet()[n.issued];
      var name :- Prefixes.PyFormatValues(Text(t));
      Ok(Rendered(Annotate(letter, name), Nodes(n.letters[t := letter], n.issued + 1)))
  }

  /** The loop of `mermaid_formatter` over `links`: subject node, property,
      object node, then the line. */
  function FormatLinks(links: seq<Edge>, n: Nodes): (r: Result<Rendered>)
    ensures r.Ok? ==> Keeps(n, r.value.nodes)
    decreases |links|
  {
    if links == [] then Ok(Rendered("", n))
    else
      var s :- GetNode(n, links[0].display);
      var p :- Prefixes.PyFormatValues(Text(links[0].property));
      var o :- GetNode(s.nodes, links[0].target);
      var rest :- FormatLinks(links[1..], o.nodes);
      Ok(Rendered(Line(s.text, p, o.text) + rest.text, rest.nodes))
  }

  /** `mermaid_formatter(links)`. */
  function MermaidFormatter(links: seq<Edge>, n: Nodes): (r: Result<Rendered>)
    ensures r.Ok? ==> Keeps(n, r.value.nodes) && |r.value.text| >= |Header| && r.value.text[..|Header|] == Header
  {
    var body :- FormatLinks(links, n);
    Ok(Rendered(Header + body.text, body.nodes))
  }

  // ---------------------------------------------------------------------
  // The letters

  /** The alphabet is strictly ascending, so its letters are distinct. */
  lemma AlphabetAscending()
    ensures |Alphabet()| == 52
    ensures forall i, j :: 0 <= i < j < |Alphabet()| ==> Alphabet()[i] < Alphabet()[j]
  {
  }

  /** The alphabet is exactly the letter string `node_generator` unpacks. */
  lemma AlphabetIsLiteral()
    ensures Alphabet() == "ABCDEFGHIJKLMNOPQRSTUVWXYZabcdefghijklmnopqrstuvwxyz"
  {
    UpperLetters();
    LowerLetters();
    assert Alphabet() == Alphabet()[..26] + Alphabet()[26..];
  }

  /** The first half of the alphabet is the upper-case letters. */
  lemma UpperLetters()
    ensures Alphabet()[..26] == "ABCDEFGHIJKLMNOPQRSTUVWXYZ"
  {
  }

  /** The second half of the alphabet is the lower-case letters. */
  lemma LowerLetters()
    ensures Alphabet()[26..] == "abcdefghijklmnopqrstuvwxyz"
  {
  }

  /** Handing the next letter to a new term keeps the letters a bijection
      onto a prefix of the alphabet. */
  lemma NextLetterKeepsValid(n: Nodes, t: Term)
    requires Valid(n) && t !in n.letters && n.issued < |Alphabet()|
    ensures Valid(Nodes(n.letters[t := Alphabet()[n.issued]], n.issued + 1))
  {
    var k := n.issued;
    var m := n.letters[t := Alphabet()[k]];
    forall u | u in m
      ensures m[u] in Alphabet()[..k + 1]
    {
      if u != t {
        EarlierLetter(n, u);
      } else {
        assert Alphabet()[..k + 1][k] == Alphabet()[k];
      }
    }
    forall u, v | u in m && v in m && u != v
      ensures m[u] != m[v]
    {
      if u == t {
        EarlierLetter(n, v);
      } else if v == t {
        EarlierLetter(n, u);
      }
    }
  }

  /** A letter already handed out is also among the first `issued + 1`, and
      is not the next one. */
  lemma EarlierLetter(n: Nodes, u: Term)
    requires Valid(n) && u in n.letters && n.issued < |Alphabet()|
    ensures n.letters[u] in Alphabet()[..n.issued + 1] && n.letters[u] != Alphabet()[n.issued]
  {
    var k := n.issued;
    var j :| 0 <= j < k && Alphabet()[..k][j] == n.letters[u];
    assert Alphabet()[..k + 1][j] == n.letters[u];
    AlphabetAscending();
    assert Alphabet()[j] < Alphabet()[k];
  }

  /** `get_node` keeps the letters a bijection onto a prefix of the
      alphabet. */
  lemma GetNodeKeepsValid(n: Nodes, t: Term)
    requires Valid(n) && GetNode(n, t).Ok?
    ensures Valid(GetNode(n, t).value.nodes)
  {
    if t !in n.letters {
      NextLetterKeepsValid(n, t);
    }
  }

  /** The terms `mermaid_formatter` asks `get_node` for, in order: subject,
      then object, of every link. */
  function Calls(links: seq<Edge>): (r: seq<Term>)
    ensures |r| == 2 * |links|
  {
    if links == [] then [] else [links[0].display, links[0].target] + Calls(links[1..])
  }

  /** The terms of `calls` not in `seen`, each once, in order of first
      occurrence. */
  function NewTerms(seen: set<Term>, calls: seq<Term>): seq<Term>
    decreases |calls|
  {
    if calls == [] then []
    else (if calls[0] in seen then [] else [calls[0]]) + NewTerms(seen + {calls[0]}, calls[1..])
  }

  /** The node state after a successful `get_node(t)`, on its own: a new
      term takes the next letter. */
  function AfterGetNode(n: Nodes, t: Term): Nodes {
    if t in n.letters then n else Nodes(n.letters[t := Letter(n.issued)], n.issued + 1)
  }

  /** The node state after a successful `get_node` on each of `calls`. */
  function Assign(n: Nodes, calls: seq<Term>): Nodes
    decreases |calls|
  {
    if calls == [] then n else Assign(AfterGetNode(n, calls[0]), calls[1..])
  }

  /** `get_node` changes the node state exactly as `AfterGetNode` says. */
  lemma GetNodeSteps(n: Nodes, t: Term)
    requires GetNode(n, t).Ok?
    ensures GetNode(n, t).value.nodes == AfterGetNode(n, t)
    ensures AfterGetNode(n, t).issued <= |Alphabet()| || t in n.letters
  {
  }

  /** Two calls, then the rest. */
  lemma AssignTwo(n: Nodes, a: Term, b: Term, rest: seq<Term>)
    ensures Assign(n, [a, b] + rest) == Assign(AfterGetNode(AfterGetNode(n, a), b), rest)
  {
    assert ([a, b] + rest)[1..] == [b] + rest;
    assert ([b] + rest)[1..] == rest;
  }

  /** The node state `mermaid_formatter`'s loop leaves behind is that of the
      `get_node` calls it makes, and it never runs past the alphabet. */
  lemma {:induction false} FormatLinksNodes(links: seq<Edge>, n: Nodes)
    requires n.issued <= |Alphabet()| && FormatLinks(links, n).Ok?
    ensures FormatLinks(links, n).value.nodes == Assign(n, Calls(links))
    ensures Assign(n, Calls(links)).issued <= |Alphabet()|
    decreases |links|
  {
    if links != [] {
      var l := links[0];
      var s := GetNode(n, l.display).value;
      var o := GetNode(s.nodes, l.target).value;
      GetNodeSteps(n, l.display);
      GetNodeSteps(s.nodes, l.target);
      FormatLinksNodes(links[1..], o.nodes);
      assert Calls(links) == [l.display, l.target] + Calls(links[1..]);
      AssignTwo(n, l.display, l.target, Calls(links[1..]));
    }
  }

  /** Every call either names a known term or issues one letter; the terms
      known afterwards are the known ones and the called ones. */
  lemma {:induction false} AssignCounts(n: Nodes, calls: seq<Term>)
    ensures Assign(n, calls).issued == n.issued + |NewTerms(n.letters.Keys, calls)|
    ensures forall t :: t in Assign(n, calls).letters <==> t in n.letters || t in calls
    decreases |calls|
  {
    if calls != [] {
      var n1 := AfterGetNode(n, calls[0]);
      AssignCounts(n1, calls[1..]);
      assert n1.letters.Keys == n.letters.Keys + {calls[0]};
      assert forall t :: t in calls <==> t == calls[0] || t in calls[1..];
    }
  }

  /** A step that stays within the alphabet keeps the letters a bijection
      onto a prefix of it. */
  lemma AfterGetNodeKeepsValid(n: Nodes, t: Term)
    requires Valid(n) && (t in n.letters || n.issued < |Alphabet()|)
    ensures Valid(AfterGetNode(n, t))
  {
    if t !in n.letters {
      NextLetterKeepsValid(n, t);
    }
  }

  /** So does a run of steps that stays within the alphabet. */
  lemma {:induction false} AssignKeepsValid(n: Nodes, calls: seq<Term>)
    requires Valid(n) && Assign(n, calls).issued <= |Alphabet()|
    ensures Valid(Assign(n, calls))
    decreases |calls|
  {
    if calls != [] {
      var n1 := AfterGetNode(n, calls[0]);
      AssignCounts(n1, calls[1..]);
      AfterGetNodeKeepsValid(n, calls[0]);
      AssignKeepsValid(n1, calls[1..]);
    }
  }

  /** A letter, once handed out, stays with its term. */
  lemma {:induction false} AssignKeeps(n: Nodes, calls: seq<Term>)
    ensures Keeps(n, Assign(n, calls))
    decreases |calls|
  {
    if calls != [] {
      AssignKeeps(AfterGetNode(n, calls[0]), calls[1..]);
    }
  }

  /** While the alphabet lasts, the i-th term first mentioned gets the i-th
      letter after those already handed out. */
  lemma {:induction false} AssignNewLetters(n: Nodes, calls: seq<Term>)
    requires Assign(n, calls).issued <= |Alphabet()|
    ensures var m := Assign(n, calls);
      var unseen := NewTerms(n.letters.Keys, calls);
      forall i :: 0 <= i < |unseen| ==>
        n.issued + i < |Alphabet()| && unseen[i] in m.letters && m.letters[unseen[i]] == Alphabet()[n.issued + i]
    decreases |calls|
  {
    AssignCounts(n, calls);
    if calls != [] {
      var c := calls[0];
      var n1 := AfterGetNode(n, c);
      var m := Assign(n, calls);
      assert m == Assign(n1, calls[1..]);
      AssignCounts(n1, calls[1..]);
      AssignKeeps(n1, calls[1..]);
      AssignNewLetters(n1, calls[1..]);
      var first := if c in n.letters then [] else [c];
      var later := NewTerms(n1.letters.Keys, calls[1..]);
      assert n1.letters.Keys == n.letters.Keys + {c};
      var unseen := NewTerms(n.letters.Keys, calls);
      assert unseen == first + later;
      forall i | 0 <= i < |unseen|
        ensures n.issued + i < |Alphabet()| && unseen[i] in m.letters && m.letters[unseen[i]] == Alphabet()[n.issued + i]
      {
        if i < |first| {
          assert unseen[i] == c && n1.letters[c] == Alphabet()[n.issued];
        } else {
          assert unseen[i] == later[i - |first|];
        }
      }
    }
  }

  /** Letter assignment of the whole loop: rendering `links` gives the i-th
      term first mentioned the i-th letter after those already handed out,
      and leaves earlier letters alone. */
  lemma FormatLinksAssigns(links: seq<Edge>, n: Nodes)
    requires Valid(n) && FormatLinks(links, n).Ok?
    ensures var m := FormatLinks(links, n).value.nodes;
      var unseen := NewTerms(n.letters.Keys, Calls(links));
      && Valid(m)
      && Keeps(n, m)
      && m.issued == n.issued + |unseen|
      && (forall t :: t in m.letters <==> t in n.letters || t in Calls(links))
      && (forall i :: 0 <= i < |unseen| ==> unseen[i] in m.letters && m.letters[unseen[i]] == Alphabet()[n.issued + i])
  {
    FormatLinksNodes(links, n);
    AssignCounts(n, Calls(links));
    AssignKeepsValid(n, Calls(links));
    AssignKeeps(n, Calls(links));
    AssignNewLetters(n, Calls(links));
  }

  /** The 53rd distinct term cannot be rendered: a diagram mentioning more
      terms than letters remain fails. */
  lemma TooManyTermsFail(links: seq<Edge>, n: Nodes)
    requires Valid(n)
    requires n.issued + |NewTerms(n.letters.Keys, Calls(links))| > |Alphabet()|
    ensures FormatLinks(links, n).Err?
    ensures MermaidFormatter(links, n).Err?
  {
    if FormatLinks(links, n).Ok? {
      FormatLinksAssigns(links, n);
    }
  }

  // ---------------------------------------------------------------------
  // The text

  /** Every term of `links` has a letter in `m`. */
  predicate Covers(m: map<Term, char>, links: seq<Edge>) {
    forall i :: 0 <= i < |links| ==> links[i].display in m && links[i].target in m
  }

  /** How a term is written, knowing its letter and whether this is its first
      mention. */
  function Mention(m: map<Term, char>, t: Term, first: bool): Result<string>
    requires t in m
  {
    if first then
      var name :- Prefixes.PyFormatValues(Text(t));
      Ok(Annotate(m[t], name))
    else Ok([m[t]])
  }

  /** The diagram body written directly from the final letters `m`: one line
      per link, the subject and then the object annotated on the first
      mention of their term (a term in `seen` is already mentioned), the
      property in its prefixed form. */
  function Expected(m: map<Term, char>, links: seq<Edge>, seen: set<Term>): Result<string>
    requires Covers(m, links)
    decreases |links|
  {
    if links == [] then Ok("")
    else
      var l := links[0];
      var s :- Mention(m, l.display, l.display !in seen);
      var p :- Prefixes.PyFormatValues(Text(l.property));
      var o :- Mention(m, l.target, l.target !in seen + {l.display});
      assert Covers(m, links[1..]) by {
        forall i | 0 <= i < |links[1..]|
          ensures links[1..][i].display in m && links[1..][i].target in m
        {
          assert links[1..][i] == links[i + 1];
        }
      }
      var rest :- Expected(m, links[1..], seen + {l.display, l.target});
      Ok(Line(s, p, o) + rest)
  }

  /** What `get_node` writes is the term's mention: annotated exactly when
      the term was new. */
  lemma GetNodeMention(n: Nodes, t: Term, m: map<Term, char>)
    requires GetNode(n, t).Ok? && t in m && m[t] == GetNode(n, t).value.nodes.letters[t]
    ensures Ok(GetNode(n, t).value.text) == Mention(m, t, t !in n.letters)
  {
  }

  /** Adding two keys one after the other. */
  lemma AddTwo(a: set<Term>, b: set<Term>, c: set<Term>, d: Term, t: Term)
    requires b == a + {d} && c == b + {t}
    ensures c == a + {d, t}
  {
  }

  /** The first link of a non-empty rendering, taken apart. */
  lemma {:induction false} FormatLinksHead(links: seq<Edge>, n: Nodes) returns (s: Rendered, p: string, o: Rendered)
    requires links != [] && FormatLinks(links, n).Ok?
    ensures GetNode(n, links[0].display) == Ok(s)
    ensures Prefixes.PyFormatValues(Text(links[0].property)) == Ok(p)
    ensures GetNode(s.nodes, links[0].target) == Ok(o)
    ensures FormatLinks(links[1..], o.nodes).Ok?
    ensures FormatLinks(links, n).value.text == Line(s.text, p, o.text) + FormatLinks(links[1..], o.nodes).value.text
    ensures FormatLinks(links, n).value.nodes == FormatLinks(links[1..], o.nodes).value.nodes
  {
    s := GetNode(n, links[0].display).value;
    p := Prefixes.PyFormatValues(Text(links[0].property)).value;
    o := GetNode(s.nodes, links[0].target).value;
  }

  /** The loop's text is the body written directly from its final letters:
      a term is annotated on its first mention in the diagram and only
      there, unless it was known before. */
  lemma {:induction false} FormatLinksIsExpected(links: seq<Edge>, n: Nodes)
    requires FormatLinks(links, n).Ok?
    ensures var r := FormatLinks(links, n).value;
      && Covers(r.nodes.letters, links)
      && Expected(r.nodes.letters, links, n.letters.Keys) == Ok(r.text)
    decreases |links|
  {
    if links != [] {
      var r := FormatLinks(links, n).value;
      var m := r.nodes.letters;
      var l := links[0];
      var s, p, o := FormatLinksHead(links, n);
      FormatLinksIsExpected(links[1..], o.nodes);
      assert Keeps(o.nodes, r.nodes);
      GetNodeMention(n, l.display, m);
      GetNodeMention(s.nodes, l.target, m);
      AddTwo(n.letters.Keys, s.nodes.letters.Keys, o.nodes.letters.Keys, l.display, l.target);
      assert Covers(m, links) by {
        forall i | 0 <= i < |links|
          ensures links[i].display in m && links[i].target in m
        {
          if i > 0 {
            assert links[i] == links[1..][i - 1];
          }
        }
      }
    }
  }

  /** The whole diagram: the header, then the body written from the final
      letters. */
  lemma MermaidIsExpected(links: seq<Edge>, n: Nodes)
    requires MermaidFormatter(links, n).Ok?
    ensures var r := MermaidFormatter(links, n).value;
      && Covers(r.nodes.letters, links)
      && Ok(r.text) == (var body :- Expected(r.nodes.letters, links, n.letters.Keys); Ok(Header + body))
  {
    FormatLinksIsExpected(links, n);
  }

  /** From start-up, the i-th distinct term mentioned gets the i-th letter. */
  lemma FreshLetters(links: seq<Edge>)
    requires MermaidFormatter(links, Fresh).Ok?
    ensures var m := MermaidFormatter(links, Fresh).value.nodes.letters;
      var terms := NewTerms({}, Calls(links));
      && |terms| <= |Alphabet()|
      && (forall i :: 0 <= i < |terms| ==> terms[i] in m && m[terms[i]] == Alphabet()[i])
  {
    assert FormatLinks(links, Fresh).Ok?;
    FreshAssigns(links);
    assert MermaidFormatter(links, Fresh).value.nodes == FormatLinks(links, Fresh).value.nodes;
  }

  /** The loop alone, from start-up: the i-th new term gets the i-th letter. */
  lemma FreshAssigns(links: seq<Edge>)
    requires FormatLinks(links, Fresh).Ok?
    ensures var m := FormatLinks(links, Fresh).value.nodes.letters;
      var terms := NewTerms({}, Calls(links));
      && |terms| <= |Alphabet()|
      && (forall i :: 0 <= i < |terms| ==> terms[i] in m && m[terms[i]] == Alphabet()[i])
  {
    assert Valid(Fresh);
    assert Fresh.letters.Keys == {};
    FormatLinksAssigns(links, Fresh);
  }
}

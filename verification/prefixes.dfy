/** Prefix compression and expansion for display.

    Both the Python script and the JavaScript script carry the same ordered
    table of eleven (prefix, namespace) pairs. `format_values` /
    `formatValues` shorten a URI whose text starts with a namespace to
    `prefix:local`; `expand_prefix_uri` / `expandPrefixUri` turn `prefix:local`
    back into a URI. The two languages differ off the happy path:
      - a value that contains its namespace a second time: Python raises
        ValueError, JavaScript keeps the text after the last occurrence;
      - text to expand without a colon: Python raises ValueError, JavaScript
        expands a bare known prefix to its namespace and returns any other
        text unchanged;
      - an unknown prefix: Python raises KeyError, JavaScript returns its
        input.
    A value no namespace begins, and `http:`/`https:` text to expand, come
    back unchanged in both.
 */
module Prefixes {
  import opened Wrappers
  import opened Strings

  const OwlNs := "http://www.w3.org/2002/07/owl#"
  const RdfNs := "http://www.w3.org/1999/02/22-rdf-syntax-ns#"
  const RdfsNs := "http://www.w3.org/2000/01/rdf-schema#"
  const ShNs := "http://www.w3.org/ns/shacl#"
  const SkosNs := "http://www.w3.org/2004/02/skos/core#"
  const XsdNs := "http://www.w3.org/2001/XMLSchema#"
  const DcaoNs := "https://ontologies.semanticarts.com/dcao/"
  const DcasNs := "https://ontologies.semanticarts.com/dcas/"
  const DcaxNs := "https://ontologies.semanticarts.com/dcax/"
  const GistNs := "https://ontologies.semanticarts.com/gist/"
  const SaNs := "https://ontologies.semanticarts.com/SemArts/"

  /** The prefix table in declaration order, which is also the order in which
      both scripts iterate it. */
  const Table: seq<(string, string)> := [
    ("owl", OwlNs),
    ("rdf", RdfNs),
    ("rdfs", RdfsNs),
    ("sh", ShNs),
    ("skos", SkosNs),
    ("xsd", XsdNs),
    ("dcao", DcaoNs),
    ("dcas", DcasNs),
    ("dcax", DcaxNs),
    ("gist", GistNs),
    ("sa", SaNs)
  ]

  /** The table's own shape, on which every round trip below rests: prefix
      names are distinct, contain no colon and are not `http`/`https`;
      namespaces are non-empty and none is a prefix of another. */
  predicate TableWellFormed() {
    && NamespacesNonEmpty()
    && PrefixesColonFree()
    && PrefixesNotSchemes()
    && PrefixesDistinct()
    && NamespacesNotNested()
  }

  predicate NamespacesNonEmpty() {
    forall i :: 0 <= i < |Table| ==> |Table[i].1| > 0
  }

  predicate PrefixesColonFree() {
    forall i :: 0 <= i < |Table| ==> !Contains(Table[i].0, ":")
  }

  predicate PrefixesNotSchemes() {
    forall i :: 0 <= i < |Table| ==> Table[i].0 != "http" && Table[i].0 != "https"
  }

  predicate PrefixesDistinct() {
    forall i, j :: 0 <= i < |Table| && 0 <= j < |Table| && i != j ==> Table[i].0 != Table[j].0
  }

  predicate NamespacesNotNested() {
    forall i, j :: 0 <= i < |Table| && 0 <= j < |Table| && i != j ==> !StartsWith(Table[i].1, Table[j].1)
  }

  lemma TableIsWellFormed()
    ensures TableWellFormed()
  {
    NamespacesAreNonEmpty();
    PrefixesAreColonFree();
    PrefixesAreNotSchemes();
    PrefixesAreDistinct();
    NamespacesAreNotNested();
  }

  lemma NamespacesAreNonEmpty()
    ensures NamespacesNonEmpty()
  {
    forall i | 0 <= i < |Table|
      ensures |Table[i].1| > 0
    {
      NamespaceKeyIsIndex(i);
    }
  }

  lemma PrefixesAreColonFree()
    ensures PrefixesColonFree()
  {
    forall i | 0 <= i < |Table|
      ensures !Contains(Table[i].0, ":")
    {
      CharFreeNotContained(Table[i].0, ':');
    }
  }

  lemma PrefixesAreNotSchemes()
    ensures PrefixesNotSchemes()
  {
  }

  /** A key that tells the table's prefix names apart, read off their first
      and last characters. */
  function PrefixKey(p: string): int {
    if |p| == 0 then -1
    else
      var first, last := p[0], p[|p| - 1];
      if first == 'o' then 0
      else if first == 'r' then (if last == 'f' then 1 else 2)
      else if first == 's' then (if last == 'h' then 3 else if last == 's' then 4 else 10)
      else if first == 'x' then 5
      else if first == 'd' then (if last == 'o' then 6 else if last == 's' then 7 else 8)
      else 9
  }

  lemma PrefixKeyIsIndex(i: nat)
    requires i < |Table|
    ensures PrefixKey(Table[i].0) == i
  {
    if i == 0 {} else if i == 1 {} else if i == 2 {} else if i == 3 {} else if i == 4 {}
    else if i == 5 {} else if i == 6 {} else if i == 7 {} else if i == 8 {} else if i == 9 {}
    else {}
  }

  lemma PrefixesAreDistinct()
    ensures PrefixesDistinct()
  {
    forall i, j | 0 <= i < |Table| && 0 <= j < |Table| && i != j
      ensures Table[i].0 != Table[j].0
    {
      PrefixKeyIsIndex(i);
      PrefixKeyIsIndex(j);
    }
  }

  /** A key that tells the namespaces apart: index 4 separates the `http:`
      entries (the first six) from the `https` ones; among the first six
      index 21 differs, among the last five index 39 does. */
  function NamespaceKey(ns: string): int {
    if |ns| <= 21 then -1
    else if ns[4] == ':' then
      var c := ns[21];
      if c == '2' then 0 else if c == '9' then 1 else if c == '0' then 2
      else if c == 's' then 3 else if c == '4' then 4 else 5
    else if |ns| <= 39 then -1
    else
      var c := ns[39];
      if c == 'o' then 6 else if c == 's' then 7 else if c == 'x' then 8
      else if c == 't' then 9 else 10
  }

  lemma NamespaceKeyIsIndex(i: nat)
    requires i < |Table|
    ensures NamespaceKey(Table[i].1) == i
  {
    if i < 6 {
      HttpNamespaceKeys(i);
    } else {
      HttpsNamespaceKeys(i);
    }
  }

  lemma HttpNamespaceKeys(i: nat)
    requires i < 6
    ensures NamespaceKey(Table[i].1) == i
  {
    var ns := Table[i].1;
    assert ns[4] == ':';
    if i == 0 {
      assert ns[21] == '2';
    } else if i == 1 {
      assert ns[21] == '9';
    } else if i == 2 {
      assert ns[21] == '0';
    } else if i == 3 {
      assert ns[21] == 's';
    } else if i == 4 {
      assert ns[21] == '4';
    } else {
      assert ns[21] == '1';
    }
  }

  lemma HttpsNamespaceKeys(i: nat)
    requires 6 <= i < |Table|
    ensures NamespaceKey(Table[i].1) == i
  {
    var ns := Table[i].1;
    assert ns[4] == 's';
    if i == 6 {
      assert ns[39] == 'o';
    } else if i == 7 {
      assert ns[39] == 's';
    } else if i == 8 {
      assert ns[39] == 'x';
    } else if i == 9 {
      assert ns[39] == 't';
    } else {
      assert ns[39] == 'A';
    }
  }

  /** The key is read below the length of any keyed string, so a longer
      string that starts with a keyed one has the same key. */
  lemma NamespaceKeyOfExtension(s: string, p: string)
    requires StartsWith(s, p) && NamespaceKey(p) >= 0
    ensures NamespaceKey(s) == NamespaceKey(p)
  {
    assert s[4] == s[..|p|][4] && s[21] == s[..|p|][21];
    if |p| > 39 {
      assert s[39] == s[..|p|][39];
    }
  }

  /** No namespace is a prefix of another. */
  lemma NamespacesAreNotNested()
    ensures NamespacesNotNested()
  {
    forall i, j | 0 <= i < |Table| && 0 <= j < |Table| && i != j
      ensures !StartsWith(Table[i].1, Table[j].1)
    {
      NamespaceKeyIsIndex(i);
      NamespaceKeyIsIndex(j);
      if StartsWith(Table[i].1, Table[j].1) {
        NamespaceKeyOfExtension(Table[i].1, Table[j].1);
      }
    }
  }

  /** The index of the first table entry whose namespace `value` starts with:
      the `for ... if value.startswith(namespace)` scan of both scripts. */
  function FirstMatch(value: string): (r: Option<nat>)
    ensures r.Some? ==> r.value < |Table| && StartsWith(value, Table[r.value].1)
    ensures r.Some? ==> forall j :: 0 <= j < r.value ==> !StartsWith(value, Table[j].1)
    ensures r.None? ==> forall j :: 0 <= j < |Table| ==> !StartsWith(value, Table[j].1)
  {
    FirstMatchFrom(value, 0)
  }

  function FirstMatchFrom(value: string, from: nat): (r: Option<nat>)
    requires from <= |Table|
    decreases |Table| - from
    ensures r.Some? ==> from <= r.value < |Table| && StartsWith(value, Table[r.value].1)
    ensures r.Some? ==> forall j :: from <= j < r.value ==> !StartsWith(value, Table[j].1)
    ensures r.None? ==> forall j :: from <= j < |Table| ==> !StartsWith(value, Table[j].1)
  {
    if from == |Table| then None
    else if StartsWith(value, Table[from].1) then Some(from)
    else FirstMatchFrom(value, from + 1)
  }

  /** The dictionary lookup `prefixes[key]`, None for a missing key. */
  function Lookup(key: string): Option<string> {
    LookupFrom(key, 0)
  }

  function LookupFrom(key: string, from: nat): Option<string>
    requires from <= |Table|
    decreases |Table| - from
  {
    if from == |Table| then None
    else if Table[from].0 == key then Some(Table[from].1)
    else LookupFrom(key, from + 1)
  }

  /** Every table prefix is found, with its own namespace. */
  lemma LookupFindsEntry(i: nat)
    requires i < |Table|
    ensures Lookup(Table[i].0) == Some(Table[i].1)
  {
    LookupFromFinds(i, 0);
  }

  lemma {:induction false} LookupFromFinds(i: nat, from: nat)
    requires from <= i < |Table|
    ensures LookupFrom(Table[i].0, from) == Some(Table[i].1)
    decreases i - from
  {
    if from < i {
      PrefixKeyIsIndex(from);
      PrefixKeyIsIndex(i);
      LookupFromFinds(i, from + 1);
    }
  }

  /** A key that is no table prefix is missing. */
  lemma LookupMisses(key: string)
    requires forall i :: 0 <= i < |Table| ==> Table[i].0 != key
    ensures Lookup(key) == None
  {
    LookupFromMisses(key, 0);
  }

  lemma {:induction false} LookupFromMisses(key: string, from: nat)
    requires from <= |Table|
    requires forall i :: from <= i < |Table| ==> Table[i].0 != key
    ensures LookupFrom(key, from) == None
    decreases |Table| - from
  {
    if from < |Table| {
      LookupFromMisses(key, from + 1);
    }
  }

  /** Whatever is found is a table entry: the one at index `i`. */
  lemma {:induction false} LookupFromSound(key: string, from: nat) returns (i: nat)
    requires from <= |Table|
    ensures LookupFrom(key, from).Some? ==>
      from <= i < |Table| && Table[i].0 == key && LookupFrom(key, from).value == Table[i].1
    decreases |Table| - from
  {
    if from == |Table| || Table[from].0 == key {
      i := from;
    } else {
      i := LookupFromSound(key, from + 1);
    }
  }

  lemma LookupSound(key: string) returns (i: nat)
    ensures Lookup(key).Some? ==> i < |Table| && Table[i] == (key, Lookup(key).value)
  {
    i := LookupFromSound(key, 0);
  }

  // ---------------------------------------------------------------------
  // Python: format_values and expand_prefix_uri

  /** `format_values(value)`. The local name is taken by
      `value.split(namespace, maxsplit=2)` unpacked into exactly two names,
      so a namespace that occurs again later in `value` raises ValueError. */
  function PyFormatValues(value: string): (r: Result<string>)
  {
    match FirstMatch(value)
    case None => Ok(value)
    case Some(i) =>
      var parts := SplitMax(value, Table[i].1, 2);
      if |parts| != 2 then Err(ValueError)
      else Ok(Table[i].0 + ":" + parts[1])
  }

  /** The step both versions of the expansion share, once `value` has been
      cut into a prefix and a local name: `http`/`https` pass `value`
      through, a prefix missing from the table gives None (the caller decides
      what that means), an empty namespace gives `value`, and otherwise the
      result is the namespace followed by the local name. */
  function ExpandWith(prefix: string, local: string, value: string): Option<string>
  {
    if prefix == "http" || prefix == "https" then Some(value)
    else
      match Lookup(prefix)
      case None => None
      case Some(namespace) =>
        if namespace == "" then Some(value) else Some(namespace + local)
  }

  /** `expand_prefix_uri(value)`: `value.split(":", maxsplit=1)` unpacked into
      two names (ValueError without a colon), `http`/`https` passed through,
      and `prefixes[prefix]` (KeyError for an unknown prefix). */
  function PyExpandPrefixUri(value: string): (r: Result<string>)
  {
    var parts := SplitMax(value, ":", 1);
    if |parts| != 2 then Err(ValueError)
    else
      match ExpandWith(parts[0], parts[1], value)
      case None => Err(KeyError)
      case Some(uri) => Ok(uri)
  }

  // ---------------------------------------------------------------------
  // JavaScript: formatValues and expandPrefixUri

  /** `formatValues(value)`: the local name is the last piece of
      `value.split(namespace)`. */
  function JsFormatValues(value: string): (r: string)
  {
    match FirstMatch(value)
    case None => value
    case Some(i) => Table[i].0 + ":" + Last(Split(value, Table[i].1))
  }

  /** `expandPrefixUri(value)`: `[prefix, ...localName] = value.split(":")`;
      `http`/`https` and unknown prefixes give `value` back, otherwise the
      namespace followed by the pieces re-joined with ":". */
  function JsExpandPrefixUri(value: string): (r: string)
  {
    var parts := Split(value, ":");
    match ExpandWith(parts[0], Join(parts[1..], ":"), value)
    case None => value
    case Some(uri) => uri
  }

  // ---------------------------------------------------------------------
  // Properties

  /** Two strings that are both prefixes of one string are comparable. */
  lemma PrefixesComparable(v: string, a: string, b: string)
    requires StartsWith(v, a) && StartsWith(v, b) && |a| <= |b|
    ensures StartsWith(b, a)
  {
    assert b[..|a|] == v[..|b|][..|a|];
  }

  /** A string that starts with table namespace `i` matches entry `i` and no
      other: the scan order of the table does not matter for it. */
  lemma MatchIsUnique(value: string, i: nat)
    requires i < |Table| && StartsWith(value, Table[i].1)
    ensures FirstMatch(value) == Some(i)
  {
    NamespacesAreNotNested();
    var m := FirstMatch(value);
    if m != Some(i) {
      var j := m.value;
      if |Table[j].1| <= |Table[i].1| {
        PrefixesComparable(value, Table[j].1, Table[i].1);
      } else {
        PrefixesComparable(value, Table[i].1, Table[j].1);
      }
    }
  }

  /** The local name of a table prefix `p` is what follows the first colon. */
  lemma SplitQualified(i: nat, local: string)
    requires i < |Table|
    ensures Split(Table[i].0 + ":" + local, ":") == [Table[i].0] + Split(local, ":")
    ensures SplitMax(Table[i].0 + ":" + local, ":", 1) == [Table[i].0, local]
  {
    PrefixesAreColonFree();
    SplitAfterFreePrefix(Table[i].0, ':', local);
  }

  /** Python round trip from a URI: when `value` starts with a table namespace
      that does not occur again in it, `format_values` yields `prefix:local`
      and `expand_prefix_uri` gives `value` back. */
  lemma PyFormatThenExpand(value: string, i: nat)
    requires i < |Table| && StartsWith(value, Table[i].1)
    requires !Contains(value[|Table[i].1|..], Table[i].1)
    ensures PyFormatValues(value) == Ok(Table[i].0 + ":" + value[|Table[i].1|..])
    ensures PyExpandPrefixUri(PyFormatValues(value).value) == Ok(value)
  {
    var ns := Table[i].1;
    var local := value[|ns|..];
    assert value == ns + local;
    PyExpandThenFormat(i, local);
  }

  /** Python round trip from a qualified name: `expand_prefix_uri(p:local)`
      is the namespace followed by `local`, and when `local` does not contain
      that namespace `format_values` gives `p:local` back. */
  lemma PyExpandThenFormat(i: nat, local: string)
    requires i < |Table|
    requires !Contains(local, Table[i].1)
    ensures PyExpandPrefixUri(Table[i].0 + ":" + local) == Ok(Table[i].1 + local)
    ensures PyFormatValues(Table[i].1 + local) == Ok(Table[i].0 + ":" + local)
  {
    NamespacesAreNonEmpty();
    PrefixesAreNotSchemes();
    LookupFindsEntry(i);
    var ns := Table[i].1;
    SplitQualified(i, local);
    MatchIsUnique(ns + local, i);
    SplitLeading(local, ns);
    assert SplitMax(local, ns, 1) == [local];
  }

  /** `format_values` raises ValueError when the matched namespace occurs a
      second time in `value`, because the split has three pieces then. */
  lemma PyFormatRepeatedNamespace(value: string, i: nat)
    requires i < |Table| && StartsWith(value, Table[i].1)
    requires Contains(value[|Table[i].1|..], Table[i].1)
    ensures PyFormatValues(value) == Err(ValueError)
  {
    NamespacesAreNonEmpty();
    var ns := Table[i].1;
    var local := value[|ns|..];
    assert value == ns + local;
    MatchIsUnique(value, i);
    SplitLeading(local, ns);
    var j := IndexOf(local, ns).value;
    assert |SplitMax(local, ns, 1)| == 2;
  }

  /** A value that starts with no table namespace is returned as it is, by
      both versions. */
  lemma FormatWithoutMatch(value: string)
    requires forall i :: 0 <= i < |Table| ==> !StartsWith(value, Table[i].1)
    ensures PyFormatValues(value) == Ok(value)
    ensures JsFormatValues(value) == value
  {
  }

  /** `expand_prefix_uri` raises ValueError on a value without a colon. */
  lemma PyExpandWithoutColon(value: string)
    requires !Contains(value, ":")
    ensures PyExpandPrefixUri(value) == Err(ValueError)
  {
    assert IndexOf(value, ":") == None;
  }

  /** A value whose text before the first colon is `http` or `https` is
      passed through by both versions. */
  lemma ExpandPassesUrlsThrough(scheme: string, rest: string)
    requires scheme == "http" || scheme == "https"
    ensures PyExpandPrefixUri(scheme + ":" + rest) == Ok(scheme + ":" + rest)
    ensures JsExpandPrefixUri(scheme + ":" + rest) == scheme + ":" + rest
  {
    CharFreeNotContained(scheme, ':');
    SplitAfterFreePrefix(scheme, ':', rest);
  }

  /** An unknown prefix: Python raises KeyError, JavaScript returns the value
      unchanged. */
  lemma ExpandUnknownPrefix(prefix: string, rest: string)
    requires !Contains(prefix, ":")
    requires prefix != "http" && prefix != "https"
    requires forall i :: 0 <= i < |Table| ==> Table[i].0 != prefix
    ensures PyExpandPrefixUri(prefix + ":" + rest) == Err(KeyError)
    ensures JsExpandPrefixUri(prefix + ":" + rest) == prefix + ":" + rest
  {
    SplitAfterFreePrefix(prefix, ':', rest);
    LookupMisses(prefix);
  }

  /** A known prefix: JavaScript yields the namespace followed by everything
      after the first colon, later colons included. */
  lemma JsExpandKnownPrefix(i: nat, rest: string)
    requires i < |Table|
    ensures JsExpandPrefixUri(Table[i].0 + ":" + rest) == Table[i].1 + rest
  {
    NamespacesAreNonEmpty();
    PrefixesAreNotSchemes();
    LookupFindsEntry(i);
    SplitQualified(i, rest);
    JoinSplit(rest, ":");
  }

  /** A bare table prefix without a colon expands, in JavaScript, to its
      namespace (the local name is the join of no pieces); Python raises
      ValueError on it. */
  lemma ExpandBarePrefix(i: nat)
    requires i < |Table|
    ensures JsExpandPrefixUri(Table[i].0) == Table[i].1
    ensures PyExpandPrefixUri(Table[i].0) == Err(ValueError)
  {
    PrefixesAreColonFree();
    NamespacesAreNonEmpty();
    PrefixesAreNotSchemes();
    LookupFindsEntry(i);
    SplitFreeIsSingle(Table[i].0, ":");
    PyExpandWithoutColon(Table[i].0);
  }

  /** `formatValues` on a matched value: `prefix:` followed by the text after
      the last cut at the namespace, which is a suffix of `value` free of the
      namespace and immediately preceded by it. */
  lemma JsFormatMatched(value: string) returns (k: nat)
    requires FirstMatch(value).Some?
    ensures var i := FirstMatch(value).value;
      && |Table[i].1| <= k <= |value|
      && JsFormatValues(value) == Table[i].0 + ":" + value[k..]
      && !Contains(value[k..], Table[i].1)
      && OccursAt(value, Table[i].1, k - |Table[i].1|)
  {
    NamespacesAreNonEmpty();
    var i := FirstMatch(value).value;
    var ns := Table[i].1;
    var local := value[|ns|..];
    assert value == ns + local;
    SplitLeading(local, ns);
    k := SplitLastPiece(value, ns);
  }

  /** JavaScript round trips: `expandPrefixUri(formatValues(ns + local))` and
      `formatValues(expandPrefixUri(p + ":" + local))` give their inputs back
      when `local` does not contain the namespace `ns` of prefix `p`. */
  lemma JsRoundTrips(i: nat, local: string)
    requires i < |Table|
    requires !Contains(local, Table[i].1)
    ensures JsFormatValues(Table[i].1 + local) == Table[i].0 + ":" + local
    ensures JsExpandPrefixUri(JsFormatValues(Table[i].1 + local)) == Table[i].1 + local
    ensures JsFormatValues(JsExpandPrefixUri(Table[i].0 + ":" + local)) == Table[i].0 + ":" + local
  {
    NamespacesAreNonEmpty();
    var ns := Table[i].1;
    MatchIsUnique(ns + local, i);
    SplitLeading(local, ns);
    SplitFreeIsSingle(local, ns);
    JsExpandKnownPrefix(i, local);
  }

  /** Wherever the Python `format_values` returns, `formatValues` returns the
      same string: the two differ only where Python raises. */
  lemma PyFormatAgreesWithJs(value: string)
    requires PyFormatValues(value).Ok?
    ensures PyFormatValues(value).value == JsFormatValues(value)
  {
    match FirstMatch(value)
    case None =>
    case Some(i) =>
      var ns := Table[i].1;
      var local := value[|ns|..];
      assert value == ns + local;
      NamespacesAreNonEmpty();
      SplitLeading(local, ns);
      assert IndexOf(local, ns).None?;
      SplitFreeIsSingle(local, ns);
  }

  /** Wherever the Python `expand_prefix_uri` returns, `expandPrefixUri`
      returns the same string. */
  lemma PyExpandAgreesWithJs(value: string)
    requires PyExpandPrefixUri(value).Ok?
    ensures PyExpandPrefixUri(value).value == JsExpandPrefixUri(value)
  {
    var w, rest := CutAtFirstColon(value);
  }

  /** A value with a colon is cut at its first colon alike by Python's
      one-split and by JavaScript's split followed by re-joining the tail. */
  lemma CutAtFirstColon(value: string) returns (w: string, rest: string)
    requires IndexOf(value, ":").Some?
    ensures SplitMax(value, ":", 1) == [w, rest]
    ensures Split(value, ":")[0] == w && Join(Split(value, ":")[1..], ":") == rest
  {
    var c := IndexOf(value, ":").value;
    w := value[..c];
    rest := value[c + 1..];
    PrefixBeforeFirstIsFree(value, ":", c);
    assert value == w + ":" + rest;
    SplitAfterFreePrefix(w, ':', rest);
    JoinSplit(rest, ":");
    assert Split(value, ":")[1..] == Split(rest, ":");
  }
}

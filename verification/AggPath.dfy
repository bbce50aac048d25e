/**
 * Buckets paths of pipeline aggregations, internal/engine/aggs_parse.go: "a>b[key]", "a>b.key".
 * Strings are sequences of characters; positions are counted in characters where the source counts
 * bytes, which makes no difference to the comparisons it does with them.
 */
module AggPath {
  import opened Options
  import opened Strings

  /** The key of `name[key]`, or of `name.key` in the last element. */
  datatype Element = Element(name: string, key: Option<string>)

  // ---------------------------------------------------------------- white space

  /** White space of strings.TrimSpace. */
  predicate Space(c: char) {
    c in {9 as char, 10 as char, 11 as char, 12 as char, 13 as char, ' ', 0x85 as char, 0xa0 as char, 0x1680 as char,
          0x2028 as char, 0x2029 as char, 0x202f as char, 0x205f as char, 0x3000 as char}
    || 0x2000 as char <= c <= 0x200a as char
  }

  ghost predicate Trimmed(s: string) {
    Strings.Trimmed(s, Space)
  }

  /** The text without white space around it. */
  function Trim(s: string): (r: string)
    ensures Trimmed(r)
    ensures forall c :: c in r ==> c in s
  {
    TrimFunc(s, Space)
  }

  lemma TrimTrimmed(s: string)
    requires Trimmed(s)
    ensures Trim(s) == s
  {
  }

  // ---------------------------------------------------------------- the parser

  function Parts(pieces: seq<string>): (parts: seq<string>) {
    if pieces == [] then []
    else
      var p := Trim(pieces[|pieces| - 1]);
      Parts(pieces[..|pieces| - 1]) + if p == "" then [] else [p]
  }

  /** One element; the last one of a path may have its key after a dot. */
  function ParseElement(el: string, last: bool): (r: Option<Element>) {
    var open := LastIndex(el, '[');
    var dot := LastIndex(el, '.');
    if open >= 0 then
      if open == 0 || open > |el| - 3 || el[|el| - 1] != ']' then None
      else Some(Element(el[..open], Some(el[open + 1..|el| - 1])))
    else if last && dot >= 0 then
      if dot == 0 || dot > |el| - 2 then None
      else Some(Element(el[..dot], Some(el[dot + 1..])))
    else Some(Element(el, None))
  }

  /** The elements of the first n parts. */
  function ParseParts(parts: seq<string>, n: nat): (r: Option<seq<Element>>)
    requires n <= |parts|
  {
    if n == 0 then Some([])
    else
      match ParseParts(parts, n - 1)
      case None => None
      case Some(els) =>
        match ParseElement(parts[n - 1], n == |parts|)
        case None => None
        case Some(e) => Some(els + [e])
  }

  /** The elements of a path, or None when an element is invalid. */
  function Parse(path: string): (r: Option<seq<Element>>) {
    var parts := Parts(Split(path, '>'));
    ParseParts(parts, |parts|)
  }

  method ParseAggPath(path: string) returns (r: Option<seq<Element>>)
    ensures r == Parse(path)
  {
    var pieces := Split(path, '>');
    var parts: seq<string> := [];
    for i := 0 to |pieces|
      invariant parts == Parts(pieces[..i])
    {
      assert pieces[..i + 1][..i] == pieces[..i];
      var p := Trim(pieces[i]);
      if p != "" {
        parts := parts + [p];
      }
    }
    assert pieces[..|pieces|] == pieces;
    var out: seq<Element> := [];
    for i := 0 to |parts|
      invariant ParseParts(parts, i) == Some(out)
    {
      var e := ParseElement(parts[i], i == |parts| - 1);
      if e == None {
        FailureStays(parts, i + 1, |parts|);
        return None;
      }
      out := out + [e.value];
    }
    return Some(out);
  }

  lemma {:induction false} FailureStays(parts: seq<string>, n: nat, m: nat)
    requires n <= m <= |parts| && ParseParts(parts, n) == None
    ensures ParseParts(parts, m) == None
  {
    if n < m {
      FailureStays(parts, n, m - 1);
    }
  }

  // ---------------------------------------------------------------- what the parser accepts

  /** name[key], or the name alone. */
  function Render(e: Element): string {
    match e.key
    case None => e.name
    case Some(key) => e.name + "[" + key + "]"
  }

  function Renders(els: seq<Element>): (r: seq<string>)
    ensures |r| == |els| && forall i :: 0 <= i < |els| ==> r[i] == Render(els[i])
  {
    seq(|els|, i requires 0 <= i < |els| => Render(els[i]))
  }

  /** The elements that a path can have. */
  predicate Clean(e: Element, last: bool) {
    && e.name != "" && '>' !in e.name && !Space(e.name[0])
    && match e.key
       case None => '[' !in e.name && !Space(e.name[|e.name| - 1]) && (last ==> '.' !in e.name)
       case Some(key) => key != "" && '[' !in key && '>' !in key
  }

  predicate CleanPath(els: seq<Element>) {
    forall i :: 0 <= i < |els| ==> Clean(els[i], i == |els| - 1)
  }

  lemma SliceKeepsOut(s: string, i: nat, j: nat, c: char)
    requires i <= j <= |s| && c !in s
    ensures c !in s[i..j]
  {
  }

  lemma BracketIsClean(el: string, open: nat)
    requires el != "" && Trimmed(el) && '>' !in el && open + 2 < |el| && open != 0 && '[' !in el[open + 1..]
    ensures Clean(Element(el[..open], Some(el[open + 1..|el| - 1])), false)
  {
    SliceKeepsOut(el, 0, open, '>');
    SliceKeepsOut(el, open + 1, |el| - 1, '>');
    SliceKeepsOut(el[open + 1..], 0, |el| - open - 2, '[');
    assert el[open + 1..][0..|el| - open - 2] == el[open + 1..|el| - 1];
  }

  lemma DotIsClean(el: string, dot: nat)
    requires el != "" && Trimmed(el) && '>' !in el && '[' !in el && dot + 1 < |el| && dot != 0
    ensures Clean(Element(el[..dot], Some(el[dot + 1..])), true)
  {
    SliceKeepsOut(el, 0, dot, '>');
    SliceKeepsOut(el, dot + 1, |el|, '>');
    SliceKeepsOut(el, dot + 1, |el|, '[');
  }

  lemma ParsedIsClean(el: string, last: bool)
    requires el != "" && Trimmed(el) && '>' !in el && ParseElement(el, last).Some?
    ensures Clean(ParseElement(el, last).value, last)
  {
    var open, dot := LastIndex(el, '['), LastIndex(el, '.');
    if open >= 0 {
      BracketIsClean(el, open);
    } else if last && dot >= 0 {
      DotIsClean(el, dot);
    }
  }

  lemma {:induction false} PartsAreClean(pieces: seq<string>)
    requires forall i :: 0 <= i < |pieces| ==> '>' !in pieces[i]
    ensures forall i :: 0 <= i < |Parts(pieces)| ==>
              Parts(pieces)[i] != "" && Trimmed(Parts(pieces)[i]) && '>' !in Parts(pieces)[i]
  {
    if pieces != [] {
      PartsAreClean(pieces[..|pieces| - 1]);
    }
  }

  lemma {:induction false} ParsedPartsAreClean(parts: seq<string>, n: nat)
    requires n <= |parts| && ParseParts(parts, n).Some?
    requires forall i :: 0 <= i < |parts| ==> parts[i] != "" && Trimmed(parts[i]) && '>' !in parts[i]
    ensures |ParseParts(parts, n).value| == n
    ensures forall i :: 0 <= i < n ==> Clean(ParseParts(parts, n).value[i], i == |parts| - 1)
  {
    if n > 0 {
      ParsedPartsAreClean(parts, n - 1);
      ParsedIsClean(parts[n - 1], n == |parts|);
    }
  }

  lemma ParseClean(path: string)
    requires Parse(path).Some?
    ensures CleanPath(Parse(path).value)
  {
    PartsAreClean(Split(path, '>'));
    var parts := Parts(Split(path, '>'));
    ParsedPartsAreClean(parts, |parts|);
  }

  // ---------------------------------------------------------------- the round trip

  lemma RenderedParses(e: Element, last: bool)
    requires Clean(e, last)
    ensures ParseElement(Render(e), last) == Some(e)
    ensures Render(e) != "" && Trimmed(Render(e)) && '>' !in Render(e)
  {
    if e.key.Some? {
      var el, key := Render(e), e.key.value;
      assert el[|e.name| + 1..] == key + "]" && el[|e.name|] == '[';
      LastIndexAt(el, '[', |e.name|);
      assert el[..|e.name|] == e.name && el[|e.name| + 1..|el| - 1] == key;
    }
  }

  lemma {:induction false} PartsOfTrimmed(pieces: seq<string>)
    requires forall i :: 0 <= i < |pieces| ==> pieces[i] != "" && Trimmed(pieces[i])
    ensures Parts(pieces) == pieces
  {
    if pieces != [] {
      PartsOfTrimmed(pieces[..|pieces| - 1]);
      TrimTrimmed(pieces[|pieces| - 1]);
    }
  }

  lemma {:induction false} ParseEach(parts: seq<string>, els: seq<Element>, n: nat)
    requires |parts| == |els| && n <= |els|
    requires forall i :: 0 <= i < |els| ==> ParseElement(parts[i], i == |els| - 1) == Some(els[i])
    ensures ParseParts(parts, n) == Some(els[..n])
  {
    if n > 0 {
      ParseEach(parts, els, n - 1);
      assert els[..n] == els[..n - 1] + [els[n - 1]];
    }
  }

  /** Exactly the clean element lists are parsed: a rendered one comes back, and every parsed one is clean. */
  lemma RoundTrip(els: seq<Element>)
    ensures CleanPath(els) <==> Parse(Join(Renders(els), '>')) == Some(els)
  {
    var path := Join(Renders(els), '>');
    if Parse(path) == Some(els) {
      ParseClean(path);
    }
    if CleanPath(els) {
      forall i | 0 <= i < |els|
        ensures Renders(els)[i] != "" && Trimmed(Renders(els)[i]) && '>' !in Renders(els)[i]
        ensures ParseElement(Renders(els)[i], i == |els| - 1) == Some(els[i])
      {
        RenderedParses(els[i], i == |els| - 1);
      }
      if els == [] {
        assert Split(path, '>') == [""] && Parts([""]) == Renders(els);
      } else {
        SplitJoin(Renders(els), '>');
        PartsOfTrimmed(Renders(els));
      }
      ParseEach(Renders(els), els, |els|);
      assert els[..|els|] == els;
    }
  }

  /** Rendering what was parsed and parsing it again changes nothing. */
  lemma Canonical(path: string)
    requires Parse(path).Some?
    ensures Parse(Join(Renders(Parse(path).value), '>')) == Parse(path)
  {
    ParseClean(path);
    RoundTrip(Parse(path).value);
  }
}

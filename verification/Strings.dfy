/** The parts of Go's strings package that several components use. */
module Strings {

  /** The last position of a character, or -1. */
  function LastIndex(s: string, c: char): (r: int)
    ensures -1 <= r < |s|
    ensures if r < 0 then c !in s else s[r] == c && c !in s[r + 1..]
  {
    if s == "" then -1
    else if s[|s| - 1] == c then |s| - 1
    else
      var r := LastIndex(s[..|s| - 1], c);
      assert s[..|s| - 1] + [s[|s| - 1]] == s;
      assert r >= 0 ==> s[..|s| - 1][r + 1..] + [s[|s| - 1]] == s[r + 1..];
      r
  }

  /** The pieces between separators; one piece more than there are separators. */
  function Split(s: string, sep: char): (pieces: seq<string>)
    ensures pieces != []
    ensures forall i :: 0 <= i < |pieces| ==> sep !in pieces[i]
  {
    if s == "" then [""]
    else
      var rest := Split(s[1..], sep);
      if s[0] == sep then [""] + rest else [[s[0]] + rest[0]] + rest[1..]
  }

  function Join(pieces: seq<string>, sep: char): string {
    if pieces == [] then ""
    else if |pieces| == 1 then pieces[0]
    else pieces[0] + [sep] + Join(pieces[1..], sep)
  }

  lemma {:induction false} LastIndexAt(s: string, c: char, i: nat)
    requires i < |s| && s[i] == c && c !in s[i + 1..]
    ensures LastIndex(s, c) == i
  {
    if i < |s| - 1 {
      assert s[|s| - 1] == s[i + 1..][|s| - i - 2];
      assert s[..|s| - 1][i + 1..] == s[i + 1..][..|s| - i - 2];
      LastIndexAt(s[..|s| - 1], c, i);
    }
  }

  lemma {:induction false} SplitPiece(p: string, rest: string, sep: char)
    requires sep !in p
    ensures Split(p + [sep] + rest, sep) == [p] + Split(rest, sep)
  {
    var s := p + [sep] + rest;
    if p == "" {
      assert s[1..] == rest;
    } else {
      assert s[1..] == p[1..] + [sep] + rest;
      SplitPiece(p[1..], rest, sep);
      assert Split(s[1..], sep) == [p[1..]] + Split(rest, sep);
      assert [s[0]] + p[1..] == p;
    }
  }

  lemma {:induction false} SplitAlone(p: string, sep: char)
    requires sep !in p
    ensures Split(p, sep) == [p]
  {
    if p != "" {
      SplitAlone(p[1..], sep);
      assert [p[0]] + p[1..] == p;
    }
  }

  lemma {:induction false} SplitJoin(pieces: seq<string>, sep: char)
    requires pieces != [] && forall i :: 0 <= i < |pieces| ==> sep !in pieces[i]
    ensures Split(Join(pieces, sep), sep) == pieces
  {
    if |pieces| == 1 {
      SplitAlone(pieces[0], sep);
    } else {
      SplitJoin(pieces[1..], sep);
      SplitPiece(pieces[0], Join(pieces[1..], sep), sep);
    }
  }

  ghost predicate Trimmed(s: string, cut: char -> bool) {
    s != "" ==> !cut(s[0]) && !cut(s[|s| - 1])
  }

  /** strings.TrimFunc */
  function TrimFunc(s: string, cut: char -> bool): (r: string)
    ensures Trimmed(r, cut)
    ensures forall c :: c in r ==> c in s
  {
    if s != "" && cut(s[0]) then TrimFunc(s[1..], cut)
    else if s != "" && cut(s[|s| - 1]) then TrimFunc(s[..|s| - 1], cut)
    else s
  }

  /** What is trimmed stands at the ends and is cut; what is left neither starts nor ends so. */
  lemma {:induction false} TrimExact(s: string, cut: char -> bool) returns (i: nat, j: nat)
    ensures i <= j <= |s| && TrimFunc(s, cut) == s[i..j]
    ensures forall k :: (0 <= k < i || j <= k < |s|) ==> cut(s[k])
    ensures i < j ==> !cut(s[i]) && !cut(s[j - 1])
    decreases |s|
  {
    i, j := 0, |s|;
    if s != "" && cut(s[0]) {
      i, j := TrimExact(s[1..], cut);
      i, j := i + 1, j + 1;
      assert s[1..][i - 1..j - 1] == s[i..j];
      assert forall k :: 1 <= k < |s| ==> s[k] == s[1..][k - 1];
    } else if s != "" && cut(s[|s| - 1]) {
      var n := |s| - 1;
      i, j := TrimExact(s[..n], cut);
      assert s[..n][i..j] == s[i..j];
    } else {
      assert s[0..|s|] == s;
    }
  }

  /** The parts without empty ones at the end, as String.split of Java returns them. */
  function DropTrailing(parts: seq<string>): (tokens: seq<string>)
    ensures tokens <= parts && (tokens != [] ==> tokens[|tokens| - 1] != "")
    ensures forall i :: |tokens| <= i < |parts| ==> parts[i] == ""
  {
    if parts != [] && parts[|parts| - 1] == "" then DropTrailing(parts[..|parts| - 1]) else parts
  }
}

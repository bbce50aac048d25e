/** Glob matching with `*` as the only wildcard, http_filterpath.go (globMatch). */
module Glob {

  /** Replaces the stars of a pattern, left to right, by the given strings. */
  ghost function Substitute(p: string, subs: seq<string>): string
    requires |subs| == Stars(p)
  {
    if p == "" then ""
    else if p[0] == '*' then subs[0] + Substitute(p[1..], subs[1..])
    else [p[0]] + Substitute(p[1..], subs)
  }

  ghost function Stars(p: string): nat {
    if p == "" then 0 else (if p[0] == '*' then 1 else 0) + Stars(p[1..])
  }

  /** The declarative meaning of a pattern. */
  ghost predicate Denotes(p: string, s: string) {
    exists subs :: |subs| == Stars(p) && Substitute(p, subs) == s
  }

  /** The same, by recursion over the pattern. */
  predicate Globs(p: string, s: string)
    decreases |p|
  {
    if p == "" then s == ""
    else if p[0] == '*' then exists k | 0 <= k <= |s| :: Globs(p[1..], s[k..])
    else s != "" && s[0] == p[0] && Globs(p[1..], s[1..])
  }

  lemma {:induction false} GlobsSound(p: string, s: string)
    requires Globs(p, s)
    ensures Denotes(p, s)
  {
    if p == "" {
      assert Substitute(p, []) == s;
    } else if p[0] == '*' {
      var k :| 0 <= k <= |s| && Globs(p[1..], s[k..]);
      GlobsSound(p[1..], s[k..]);
      var subs :| |subs| == Stars(p[1..]) && Substitute(p[1..], subs) == s[k..];
      assert ([s[..k]] + subs)[1..] == subs;
      assert Substitute(p, [s[..k]] + subs) == s[..k] + s[k..] == s;
    } else {
      GlobsSound(p[1..], s[1..]);
      var subs :| |subs| == Stars(p[1..]) && Substitute(p[1..], subs) == s[1..];
      assert Substitute(p, subs) == [s[0]] + s[1..] == s;
    }
  }

  lemma {:induction false} GlobsComplete(p: string, subs: seq<string>)
    requires |subs| == Stars(p)
    ensures Globs(p, Substitute(p, subs))
    decreases |p|
  {
    if p != "" {
      var s := Substitute(p, subs);
      if p[0] == '*' {
        GlobsComplete(p[1..], subs[1..]);
        assert s[|subs[0]|..] == Substitute(p[1..], subs[1..]);
      } else {
        GlobsComplete(p[1..], subs);
        assert s[1..] == Substitute(p[1..], subs);
      }
    }
  }

  lemma GlobsIsDenotes(p: string, s: string)
    ensures Globs(p, s) <==> Denotes(p, s)
  {
    if Globs(p, s) {
      GlobsSound(p, s);
    }
    if subs :| |subs| == Stars(p) && Substitute(p, subs) == s {
      GlobsComplete(p, subs);
    }
  }

  /** `strings.IndexByte`. */
  function IndexByte(s: string, c: char): (i: int)
    ensures -1 <= i < |s|
    ensures i == -1 <==> c !in s
    ensures i >= 0 ==> s[i] == c && c !in s[..i]
  {
    if s == "" then -1
    else if s[0] == c then 0
    else
      var r := IndexByte(s[1..], c);
      assert r >= 0 ==> s[..r + 1] == [s[0]] + s[1..][..r];
      if r == -1 then -1 else r + 1
  }

  ghost predicate OccursAt(s: string, part: string, i: int) {
    0 <= i <= |s| && part <= s[i..]
  }

  /** `strings.Index`. */
  function Index(s: string, part: string): (i: int)
    ensures i == -1 || OccursAt(s, part, i)
    ensures forall j :: OccursAt(s, part, j) ==> 0 <= i <= j
    decreases |s|
  {
    if part <= s then
      assert s[0..] == s;
      0
    else if s == "" then
      assert s[0..] == s;
      -1
    else
      var r := Index(s[1..], part);
      assert forall j :: OccursAt(s, part, j) && j > 0 ==> OccursAt(s[1..], part, j - 1) by {
        forall j | OccursAt(s, part, j) && j > 0 ensures OccursAt(s[1..], part, j - 1) {
          assert s[1..][j - 1..] == s[j..];
        }
      }
      assert !OccursAt(s, part, 0) by { assert s[0..] == s; }
      assert r >= 0 ==> s[1..][r..] == s[r + 1..];
      if r == -1 then -1 else r + 1
  }

  lemma {:induction false} LiteralPrefix(part: string, rest: string, s: string)
    requires '*' !in part
    ensures Globs(part + rest, s) <==> part <= s && Globs(rest, s[|part|..])
  {
    if part == "" {
      assert part + rest == rest && s[0..] == s;
    } else {
      assert (part + rest)[1..] == part[1..] + rest;
      if s != "" && s[0] == part[0] {
        LiteralPrefix(part[1..], rest, s[1..]);
        assert part == [part[0]] + part[1..] && s == [s[0]] + s[1..];
        if part <= s {
          assert part[1..] <= s[1..] && s[1..][|part| - 1..] == s[|part|..];
        }
        if part[1..] <= s[1..] {
          assert part <= s && s[1..][|part| - 1..] == s[|part|..];
        }
      }
    }
  }

  lemma GlobsLiteral(p: string, s: string)
    requires '*' !in p
    ensures Globs(p, s) <==> p == s
  {
    LiteralPrefix(p, "", s);
    assert p + "" == p;
    if p <= s && s[|p|..] == "" {
      assert s == p + s[|p|..];
    }
  }

  /** An occurrence of `part` after which `rest` matches what is left. */
  ghost predicate Fits(s: string, part: string, rest: string, i: int) {
    OccursAt(s, part, i) && i + |part| <= |s| && Denotes(rest, s[i + |part|..])
  }

  /** A star, a literal and the rest of the pattern: some occurrence of the literal must fit. */
  lemma StarPart(part: string, rest: string, s: string)
    requires '*' !in part
    ensures Globs(['*'] + part + rest, s) <==> exists i :: Fits(s, part, rest, i)
  {
    var p := ['*'] + part + rest;
    assert p[1..] == part + rest;
    forall k | 0 <= k <= |s|
      ensures Globs(part + rest, s[k..]) <==> Fits(s, part, rest, k)
    {
      LiteralPrefix(part, rest, s[k..]);
      if part <= s[k..] {
        assert s[k..][|part|..] == s[k + |part|..];
        GlobsIsDenotes(rest, s[k + |part|..]);
      }
    }
    if i :| Fits(s, part, rest, i) {
      assert Globs(part + rest, s[i..]);
    }
  }

  /** The next occurrence from a position on: no fit is skipped, and whether it fits. */
  lemma NextOccurrence(s: string, part: string, rest: string, from: nat)
    requires from <= |s|
    ensures var i := Index(s[from..], part);
            && (i == -1 ==> forall j :: Fits(s, part, rest, j) ==> j < from)
            && (i >= 0 ==> i + from + |part| <= |s|)
            && (i >= 0 ==> forall j :: Fits(s, part, rest, j) && from <= j ==> i + from <= j)
            && (i >= 0 ==> (Fits(s, part, rest, i + from) <==> Denotes(rest, s[i + from + |part|..])))
  {
    var i := Index(s[from..], part);
    forall j | Fits(s, part, rest, j) && from <= j ensures OccursAt(s[from..], part, j - from) {
      assert s[from..][j - from..] == s[j..];
    }
    if i >= 0 {
      assert s[from..][i..] == s[i + from..];
    }
  }

  lemma StarSuffix(part: string, s: string)
    requires '*' !in part
    ensures Globs(['*'] + part, s) <==> |part| <= |s| && s[|s| - |part|..] == part
  {
    assert (['*'] + part)[1..] == part;
    if Globs(['*'] + part, s) {
      var k :| 0 <= k <= |s| && Globs(part, s[k..]);
      GlobsLiteral(part, s[k..]);
    }
    if |part| <= |s| && s[|s| - |part|..] == part {
      GlobsLiteral(part, s[|s| - |part|..]);
    }
  }

  lemma StarStar(p: string, s: string)
    requires |p| >= 2 && p[0] == '*' && p[1] == '*'
    ensures Globs(p, s) <==> Globs(p[1..], s)
  {
    if Globs(p, s) {
      var k :| 0 <= k <= |s| && Globs(p[1..], s[k..]);
      var m :| 0 <= m <= |s[k..]| && Globs(p[1..][1..], s[k..][m..]);
      assert s[k..][m..] == s[k + m..];
    }
    if Globs(p[1..], s) {
      assert s[0..] == s;
    }
  }

  // The cases of globMatch, in terms of the declarative meaning.

  lemma CaseLiteral(p: string, s: string)
    requires '*' !in p
    ensures Denotes(p, s) <==> p == s
  {
    GlobsIsDenotes(p, s);
    GlobsLiteral(p, s);
  }

  lemma CaseSuffix(p: string, s: string)
    requires p != "" && p[0] == '*' && '*' !in p[1..]
    ensures Denotes(p, s) <==> |p| - 1 <= |s| && s[|s| - (|p| - 1)..] == p[1..]
  {
    GlobsIsDenotes(p, s);
    StarSuffix(p[1..], s);
    assert p == ['*'] + p[1..];
  }

  lemma CaseStarStar(p: string, s: string)
    requires |p| >= 2 && p[0] == '*' && p[1] == '*'
    ensures Denotes(p, s) <==> Denotes(p[1..], s)
  {
    GlobsIsDenotes(p, s);
    GlobsIsDenotes(p[1..], s);
    StarStar(p, s);
  }

  lemma CasePart(p: string, next: nat, s: string)
    requires 1 < next < |p| && p[0] == '*' && '*' !in p[1..next]
    ensures Denotes(p, s) <==> exists i :: Fits(s, p[1..next], p[next..], i)
  {
    GlobsIsDenotes(p, s);
    StarPart(p[1..next], p[next..], s);
    assert p == ['*'] + p[1..next] + p[next..];
    forall i | OccursAt(s, p[1..next], i) && i + next - 1 <= |s| {
      GlobsIsDenotes(p[next..], s[i + next - 1..]);
    }
  }

  lemma CasePrefix(p: string, first: nat, s: string)
    requires first < |p| && '*' !in p[..first]
    ensures Denotes(p, s) <==> first <= |s| && p[..first] == s[..first] && Denotes(p[first..], s[first..])
  {
    GlobsIsDenotes(p, s);
    LiteralPrefix(p[..first], p[first..], s);
    assert p == p[..first] + p[first..];
    if first <= |s| {
      GlobsIsDenotes(p[first..], s[first..]);
    }
  }

  /** The loop of globMatch over the occurrences of the literal between two stars. */
  method SearchPart(part: string, rest: string, str: string) returns (b: bool)
    requires part != ""
    ensures b <==> exists i :: Fits(str, part, rest, i)
    decreases |rest|, 1
  {
    var from := 0;
    while true
      invariant 0 <= from <= |str|
      invariant forall i :: Fits(str, part, rest, i) ==> from <= i
      decreases |str| - from
    {
      var i := Index(str[from..], part);
      NextOccurrence(str, part, rest, from);
      if i == -1 {
        return false;
      }
      i := i + from;
      var fits := GlobMatch(rest, str[i + |part|..]);
      if fits {
        return true;
      }
      from := i + 1;
    }
  }

  /** globMatch decides the declarative meaning of its pattern; the occurrence search misses no split. */
  method GlobMatch(pattern: string, str: string) returns (b: bool)
    ensures b <==> Denotes(pattern, str)
    decreases |pattern|, 0
  {
    var first := IndexByte(pattern, '*');
    if first == -1 {
      CaseLiteral(pattern, str);
      return pattern == str;
    }
    if first == 0 {
      if |pattern| == 1 {
        CaseSuffix(pattern, str);
        return true;
      }
      var next := IndexByte(pattern[1..], '*');
      if next == -1 {
        CaseSuffix(pattern, str);
        var part := pattern[1..];
        return |part| <= |str| && str[|str| - |part|..] == part;
      }
      next := next + 1;
      if next == 1 {
        CaseStarStar(pattern, str);
        b := GlobMatch(pattern[1..], str);
        return;
      }
      assert pattern[1..next] == pattern[1..][..next - 1];
      CasePart(pattern, next, str);
      b := SearchPart(pattern[1..next], pattern[next..], str);
      return;
    }
    CasePrefix(pattern, first, str);
    if |str| >= first && pattern[..first] == str[..first] {
      b := GlobMatch(pattern[first..], str[first..]);
    } else {
      b := false;
    }
  }
}

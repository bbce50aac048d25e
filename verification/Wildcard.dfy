/**
 * wildcardMatch, internal/engine/mapping.go: `*` matches any text and `?` any single character. The
 * loop backtracks to the last `*` only. A character stands for a byte of the source's strings.
 */
module Wildcard {

  /** The reference meaning: some split of the text gives every pattern character its part. */
  predicate Matches(p: string, s: string)
    decreases |p|, |s|
  {
    if p == "" then s == ""
    else if p[0] == '*' then Matches(p[1..], s) || (s != "" && Matches(p, s[1..]))
    else s != "" && (p[0] == '?' || p[0] == s[0]) && Matches(p[1..], s[1..])
  }

  predicate Fits(c: char, d: char) { c != '*' && (c == '?' || c == d) }

  /** A pattern without `*` matches character by character. */
  predicate Word(w: string, s: string) {
    |w| == |s| && forall k :: 0 <= k < |w| ==> Fits(w[k], s[k])
  }

  predicate Stars(p: string) { forall k :: 0 <= k < |p| ==> p[k] == '*' }

  /** `*` followed by p matches when p matches some rest of the text. */
  ghost predicate Somewhere(p: string, s: string, from: nat) {
    exists k :: from <= k <= |s| && Matches(p, s[k..])
  }

  lemma {:induction false} StarIsSomewhere(p: string, s: string)
    requires p != "" && p[0] == '*'
    ensures Matches(p, s) <==> Somewhere(p[1..], s, 0)
    decreases |s|
  {
    assert s[0..] == s;
    if s != "" {
      StarIsSomewhere(p, s[1..]);
      if Matches(p, s[1..]) {
        var k :| 0 <= k <= |s[1..]| && Matches(p[1..], s[1..][k..]);
        assert s[1..][k..] == s[k + 1..];
      }
      if Somewhere(p[1..], s, 0) && !Matches(p[1..], s) {
        var k :| 0 <= k <= |s| && Matches(p[1..], s[k..]);
        assert k > 0 && s[1..][k - 1..] == s[k..];
      }
    }
  }

  lemma {:induction false} WordThen(p: string, n: nat, s: string)
    requires n <= |p| && n <= |s| && Word(p[..n], s[..n])
    ensures Matches(p, s) <==> Matches(p[n..], s[n..])
  {
    if n > 0 {
      assert p[..n][0] == p[0] && s[..n][0] == s[0] && Fits(p[..n][0], s[..n][0]);
      assert p[1..][..n - 1] == p[..n][1..] && s[1..][..n - 1] == s[..n][1..];
      WordThen(p[1..], n - 1, s[1..]);
      assert p[1..][n - 1..] == p[n..] && s[1..][n - 1..] == s[n..];
    } else {
      assert p[0..] == p && s[0..] == s;
    }
  }

  /** A matched text is at least as long as the pattern's part before its first star. */
  lemma {:induction false} WordNeedsRoom(p: string, n: nat, s: string)
    requires n <= |p| && Matches(p, s) && forall k :: 0 <= k < n ==> p[k] != '*'
    ensures n <= |s| && Matches(p[n..], s[n..])
  {
    if n > 0 {
      assert p[0] != '*';
      WordNeedsRoom(p[1..], n - 1, s[1..]);
      assert p[1..][n - 1..] == p[n..] && s[1..][n - 1..] == s[n..];
    } else {
      assert p[0..] == p && s[0..] == s;
    }
  }

  lemma StarsStep(p: string, k: nat)
    requires k <= |p|
    ensures Stars(p[k..]) <==> k == |p| || (p[k] == '*' && Stars(p[k + 1..]))
  {
    if k < |p| {
      var rest := p[k..];
      var tail := p[k + 1..];
      assert rest == [p[k]] + tail;
      if Stars(rest) {
        forall j | 0 <= j < |tail| ensures tail[j] == '*' {
          assert rest[j + 1] == '*';
        }
      }
    }
  }

  lemma {:induction false} EmptyText(p: string)
    ensures Matches(p, "") <==> Stars(p)
  {
    StarsStep(p, 0);
    assert p[0..] == p;
    if p != "" {
      EmptyText(p[1..]);
    }
  }

  // ---------------------------------------------------------------- the loop

  /**
   * What the loop knows with the last star at `star`: the text before `mark` is settled, and the
   * pattern between the star and `p` fits the text between `mark` and `i`.
   */
  ghost predicate Tracks(pat: string, s: string, p: nat, i: nat, star: int, mark: nat) {
    && p <= |pat| && i <= |s|
    && if star < 0
       then Matches(pat, s) <==> Matches(pat[p..], s[i..])
       else
         && star < p && mark <= i && p - star - 1 == i - mark
         && Word(pat[star + 1..p], s[mark..i])
         && (Matches(pat, s) <==> Somewhere(pat[star + 1..], s, mark))
  }

  lemma SomewhereStep(p: string, s: string, from: nat)
    requires from < |s| && !Matches(p, s[from..])
    ensures Somewhere(p, s, from) <==> Somewhere(p, s, from + 1)
  {
  }

  /** The attempt that starts at `mark` depends on what is left. */
  lemma AtMark(pat: string, s: string, p: nat, i: nat, star: int, mark: nat)
    requires star >= 0 && Tracks(pat, s, p, i, star, mark)
    ensures Matches(pat[star + 1..], s[mark..]) <==> Matches(pat[p..], s[i..])
  {
    var tail, text, n := pat[star + 1..], s[mark..], i - mark;
    assert tail[..n] == pat[star + 1..p] && text[..n] == s[mark..i];
    WordThen(tail, n, text);
    assert tail[n..] == pat[p..] && text[n..] == s[i..];
  }

  lemma Advance(pat: string, s: string, p: nat, i: nat, star: int, mark: nat)
    requires Tracks(pat, s, p, i, star, mark) && p < |pat| && i < |s| && Fits(pat[p], s[i])
    ensures Tracks(pat, s, p + 1, i + 1, star, mark)
  {
    if star < 0 {
      assert pat[p..][1..] == pat[p + 1..] && s[i..][1..] == s[i + 1..];
    } else {
      assert pat[star + 1..p + 1] == pat[star + 1..p] + [pat[p]];
      assert s[mark..i + 1] == s[mark..i] + [s[i]];
    }
  }

  /** A mismatch rules out the attempt at `mark`: try one character later. */
  lemma Backtrack(pat: string, s: string, p: nat, i: nat, star: int, mark: nat)
    requires Tracks(pat, s, p, i, star, mark) && star >= 0 && i < |s|
    requires p < |pat| ==> pat[p] != '*' && !Fits(pat[p], s[i])
    ensures Tracks(pat, s, star + 1, mark + 1, star, mark + 1)
  {
    AtMark(pat, s, p, i, star, mark);
    if p < |pat| {
      assert pat[p..][0] == pat[p] && s[i..][0] == s[i];
    }
    SomewhereStep(pat[star + 1..], s, mark);
  }

  /** A later star makes the choices for the earlier one irrelevant. */
  lemma NextStar(pat: string, s: string, p: nat, i: nat, star: int, mark: nat)
    requires Tracks(pat, s, p, i, star, mark) && p < |pat| && pat[p] == '*'
    ensures Tracks(pat, s, p + 1, i, p, i)
  {
    StarIsSomewhere(pat[p..], s[i..]);
    Shifted(pat[p..][1..], s, i);
    assert pat[p..][1..] == pat[p + 1..];
    if star >= 0 {
      AtMark(pat, s, p, i, star, mark);
      if Matches(pat, s) {
        var k :| mark <= k <= |s| && Matches(pat[star + 1..], s[k..]);
        LaterStart(pat, s, p, i, star, mark, k);
      }
    }
  }

  lemma Shifted(p: string, s: string, i: nat)
    requires i <= |s|
    ensures Somewhere(p, s[i..], 0) <==> Somewhere(p, s, i)
  {
    if Somewhere(p, s[i..], 0) {
      var k :| 0 <= k <= |s[i..]| && Matches(p, s[i..][k..]);
      assert s[i..][k..] == s[i + k..];
    }
    if Somewhere(p, s, i) {
      var k :| i <= k <= |s| && Matches(p, s[k..]);
      assert s[i..][k - i..] == s[k..];
    }
  }

  lemma LaterStart(pat: string, s: string, p: nat, i: nat, star: int, mark: nat, k: nat)
    requires Tracks(pat, s, p, i, star, mark) && star >= 0 && p < |pat| && pat[p] == '*'
    requires mark <= k <= |s| && Matches(pat[star + 1..], s[k..])
    ensures Somewhere(pat[p + 1..], s, i)
  {
    var tail, n := pat[star + 1..], i - mark;
    forall j | 0 <= j < n ensures tail[j] != '*' {
      assert Fits(pat[star + 1..p][j], s[mark..i][j]);
    }
    WordNeedsRoom(tail, n, s[k..]);
    assert tail[n..] == pat[p..] && s[k..][n..] == s[k + n..];
    StarIsSomewhere(pat[p..], s[k + n..]);
    assert pat[p..][1..] == pat[p + 1..];
    Shifted(pat[p + 1..], s, k + n);
    var m :| k + n <= m <= |s| && Matches(pat[p + 1..], s[m..]);
  }

  /** The text is used up: only stars may be left of the pattern. */
  lemma AtEnd(pat: string, s: string, p: nat, star: int, mark: nat)
    requires Tracks(pat, s, p, |s|, star, mark)
    ensures Matches(pat, s) <==> Stars(pat[p..])
  {
    assert s[|s|..] == "";
    EmptyText(pat[p..]);
    if star >= 0 {
      AtMark(pat, s, p, |s|, star, mark);
      if Matches(pat, s) && !Stars(pat[p..]) {
        var k :| mark <= k <= |s| && Matches(pat[star + 1..], s[k..]);
        var tail, n := pat[star + 1..], |s| - mark;
        forall j | 0 <= j < n ensures tail[j] != '*' {
          assert Fits(pat[star + 1..p][j], s[mark..|s|][j]);
        }
        WordNeedsRoom(tail, n, s[k..]);
      }
    }
  }

  lemma NoMatch(pat: string, s: string, p: nat, i: nat)
    requires Tracks(pat, s, p, i, -1, 0) && i < |s| && (p < |pat| ==> pat[p] != '*' && !Fits(pat[p], s[i]))
    ensures !Matches(pat, s)
  {
    if p < |pat| {
      assert pat[p..][0] == pat[p] && s[i..][0] == s[i];
    }
  }

  lemma AnyText(s: string)
    ensures Matches("*", s)
  {
    StarIsSomewhere("*", s);
    assert s[|s|..] == "" && "*"[1..] == "" && Matches("*"[1..], s[|s|..]);
  }

  method WildcardMatch(pattern: string, s: string) returns (r: bool)
    ensures r == Matches(pattern, s)
  {
    if pattern == "*" {
      AnyText(s);
      return true;
    }
    if !('*' in pattern || '?' in pattern) {
      LiteralMatches(pattern, s);
      return pattern == s;
    }
    var p, i := 0, 0;
    var star, mark := -1, 0;
    assert pattern[0..] == pattern && s[0..] == s;
    while i < |s|
      invariant p <= |pattern| && i <= |s| && -1 <= star < |pattern| && mark <= |s| && (star < 0 ==> mark == 0)
      invariant Tracks(pattern, s, p, i, star, mark)
      decreases |pattern| - star, |s| - mark, |s| - i
    {
      if p < |pattern| && pattern[p] == '*' {
        NextStar(pattern, s, p, i, star, mark);
        star, mark := p, i;
        p := p + 1;
      } else if p < |pattern| && (pattern[p] == '?' || pattern[p] == s[i]) {
        Advance(pattern, s, p, i, star, mark);
        p, i := p + 1, i + 1;
      } else if star >= 0 {
        Backtrack(pattern, s, p, i, star, mark);
        mark := mark + 1;
        p, i := star + 1, mark;
      } else {
        NoMatch(pattern, s, p, i);
        return false;
      }
    }
    AtEnd(pattern, s, p, star, mark);
    ghost var start := p;
    while p < |pattern| && pattern[p] == '*'
      invariant start <= p <= |pattern|
      invariant Stars(pattern[start..]) <==> Stars(pattern[p..])
    {
      StarsStep(pattern, p);
      p := p + 1;
    }
    StarsStep(pattern, p);
    return p == |pattern|;
  }

  lemma {:induction false} LiteralMatches(p: string, s: string)
    requires '*' !in p && '?' !in p
    ensures Matches(p, s) <==> p == s
  {
    if p != "" && s != "" && p[0] == s[0] {
      LiteralMatches(p[1..], s[1..]);
      assert p == [p[0]] + p[1..] && s == [s[0]] + s[1..];
    }
  }

  // ---------------------------------------------------------------- lists of alias patterns

  /** aliasPatternMatches in internal/engine/alias.go looks for the first wildcard of the list. */
  function FirstWildcard(patterns: seq<string>): (r: nat)
    ensures r <= |patterns|
    ensures r < |patterns| ==> '*' in patterns[r] || '?' in patterns[r]
    ensures forall i :: 0 <= i < r ==> '*' !in patterns[i] && '?' !in patterns[i]
  {
    if patterns == [] || '*' in patterns[0] || '?' in patterns[0] then 0 else 1 + FirstWildcard(patterns[1..])
  }

  /** Entry i takes names away: it starts with "-" and follows a wildcard. */
  predicate Excluding(patterns: seq<string>, i: nat)
    requires i < |patterns|
  {
    i > FirstWildcard(patterns) && patterns[i] != "" && patterns[i][0] == '-'
  }

  /** Entry i says something about the name. */
  predicate Applies(patterns: seq<string>, i: nat, name: string)
    requires i < |patterns|
  {
    if Excluding(patterns, i) then Matches(patterns[i][1..], name)
    else patterns[i] == "_all" || Matches(patterns[i], name)
  }

  /** Some entry includes the name and no later one excludes it. */
  ghost predicate Selected(patterns: seq<string>, name: string) {
    exists i :: 0 <= i < |patterns| && Included(patterns, i, name)
  }

  ghost predicate Included(patterns: seq<string>, i: nat, name: string)
    requires i < |patterns|
  {
    && !Excluding(patterns, i) && Applies(patterns, i, name)
    && forall j :: i < j < |patterns| && Excluding(patterns, j) ==> !Applies(patterns, j, name)
  }

  method AliasPatternMatches(patterns: seq<string>, name: string) returns (matched: bool)
    ensures matched == Selected(patterns, name)
  {
    var firstWildcard := FirstWildcard(patterns);
    matched := false;
    for i := 0 to |patterns|
      invariant matched <==> SomeKept(patterns, i, name)
    {
      var p := patterns[i];
      if i > firstWildcard && p != "" && p[0] == '-' {
        var excludes := WildcardMatch(p[1..], name);
        if excludes {
          matched := false;
        }
      } else {
        var includes := WildcardMatch(p, name);
        if p == "_all" || p == "*" || includes {
          matched := true;
        }
        if p == "*" {
          AnyText(name);
        }
      }
      OneMorePattern(patterns, i, name);
    }
    assert forall k :: 0 <= k < |patterns| ==> (Kept(patterns, k, |patterns|, name) <==> Included(patterns, k, name));
  }

  /** Among the first n entries, entry k includes the name and no later one excludes it. */
  ghost predicate Kept(patterns: seq<string>, k: nat, n: nat, name: string)
    requires k < n <= |patterns|
  {
    && !Excluding(patterns, k) && Applies(patterns, k, name)
    && forall j :: k < j < n && Excluding(patterns, j) ==> !Applies(patterns, j, name)
  }

  ghost predicate SomeKept(patterns: seq<string>, n: nat, name: string)
    requires n <= |patterns|
  {
    exists k :: 0 <= k < n && Kept(patterns, k, n, name)
  }

  lemma OneMorePattern(patterns: seq<string>, i: nat, name: string)
    requires i < |patterns|
    ensures SomeKept(patterns, i + 1, name)
       <==> if Excluding(patterns, i) then SomeKept(patterns, i, name) && !Applies(patterns, i, name)
            else SomeKept(patterns, i, name) || Applies(patterns, i, name)
  {
    var drops := Excluding(patterns, i) && Applies(patterns, i, name);
    forall k | 0 <= k < i ensures Kept(patterns, k, i + 1, name) <==> Kept(patterns, k, i, name) && !drops {
    }
    assert Kept(patterns, i, i + 1, name) <==> !Excluding(patterns, i) && Applies(patterns, i, name);
    if SomeKept(patterns, i, name) {
      var k :| 0 <= k < i && Kept(patterns, k, i, name);
      assert Kept(patterns, k, i + 1, name) <==> !drops;
    }
    if SomeKept(patterns, i + 1, name) {
      var k :| 0 <= k < i + 1 && Kept(patterns, k, i + 1, name);
      assert k < i ==> Kept(patterns, k, i, name);
    }
  }
}

/**
 * The numeric interval compiler of the Lucene regular expression dialect
 * (`<lo-hi>`), internal/engine/aggs_regexp.go.
 *
 * The source prints alternatives such as `12[3-5][0-9]`. Here an alternative is a
 * sequence of atoms, each a literal character or a character class, and an alternative
 * matches a string when it matches it from end to end.
 */
module IntervalRegexp {

  // ---------------------------------------------------------------- numerals

  ghost predicate IsDigit(c: char) { '0' <= c <= '9' }

  ghost predicate AllDigits(s: string) { forall i :: 0 <= i < |s| ==> IsDigit(s[i]) }

  function DigitChar(d: nat): char
    requires d < 10
  {
    (d + '0' as int) as char
  }

  function Succ(c: char): char
    requires c < '~'
  {
    (c as int + 1) as char
  }

  function Pred(c: char): char
    requires ' ' < c <= '~'
  {
    (c as int - 1) as char
  }

  function Pow10(n: nat): (p: nat)
    ensures p >= 1
  {
    if n == 0 then 1 else 10 * Pow10(n - 1)
  }

  /** The number a digit string denotes, leading zeros allowed. */
  ghost function Value(s: string): nat
    requires AllDigits(s)
  {
    if s == "" then 0 else 10 * Value(s[..|s| - 1]) + (s[|s| - 1] as int - '0' as int)
  }

  /** `strconv.Itoa` on the non-negative numbers. */
  function Itoa(n: nat): (s: string)
    ensures s != "" && AllDigits(s)
  {
    if n < 10 then [DigitChar(n)] else Itoa(n / 10) + [DigitChar(n % 10)]
  }

  /** A numeral without leading zeros. */
  ghost predicate Canonical(s: string) { s != "" && AllDigits(s) && (|s| == 1 || s[0] != '0') }

  lemma {:induction false} ValueBound(s: string)
    requires AllDigits(s)
    ensures Value(s) < Pow10(|s|)
  {
    if s != "" {
      ValueBound(s[..|s| - 1]);
    }
  }

  /** Itoa prints the canonical numeral of its argument. */
  lemma {:induction false} ItoaValue(n: nat)
    ensures Canonical(Itoa(n)) && Value(Itoa(n)) == n
    ensures n > 0 ==> Itoa(n)[0] != '0'
  {
    if n >= 10 {
      ItoaValue(n / 10);
      assert Itoa(n)[..|Itoa(n)| - 1] == Itoa(n / 10);
    }
  }

  /** The length of a canonical numeral is determined by the decade of its value. */
  lemma {:induction false} CanonicalLength(s: string)
    requires Canonical(s)
    ensures Value(s) < Pow10(|s|)
    ensures s[0] != '0' ==> Pow10(|s| - 1) <= Value(s)
  {
    ValueBound(s);
    if |s| > 1 {
      CanonicalLength(s[..|s| - 1]);
    }
  }

  lemma {:induction false} PowMonotone(a: nat, b: nat)
    requires a <= b
    ensures Pow10(a) <= Pow10(b)
  {
    if a < b {
      PowMonotone(a, b - 1);
    }
  }

  lemma LongerIsLarger(s: string, t: string)
    requires Canonical(s) && Canonical(t) && |s| < |t|
    ensures Value(s) < Value(t)
  {
    CanonicalLength(s);
    CanonicalLength(t);
    PowMonotone(|s|, |t| - 1);
  }

  // ------------------------------------------------- order of equal-length digit strings

  ghost predicate LexLe(a: string, b: string)
    requires |a| == |b|
  {
    a == "" || a[0] < b[0] || (a[0] == b[0] && LexLe(a[1..], b[1..]))
  }

  lemma {:induction false} LexLeSnoc(a: string, c: char, b: string, d: char)
    requires |a| == |b|
    ensures LexLe(a + [c], b + [d]) <==> if a == b then c <= d else LexLe(a, b)
  {
    if a == "" {
      assert a + [c] == [c] && b + [d] == [d];
    } else {
      LexLeSnoc(a[1..], c, b[1..], d);
      assert (a + [c])[1..] == a[1..] + [c] && (b + [d])[1..] == b[1..] + [d];
      assert a == [a[0]] + a[1..] && b == [b[0]] + b[1..];
    }
  }

  lemma {:induction false} LexIsValueOrder(a: string, b: string)
    requires |a| == |b| && AllDigits(a) && AllDigits(b)
    ensures LexLe(a, b) <==> Value(a) <= Value(b)
    decreases |a|
  {
    if a != "" {
      hide LexLe;
      var a', b' := a[..|a| - 1], b[..|b| - 1];
      LexIsValueOrder(a', b');
      LexIsValueOrder(b', a');
      LexLeSnoc(a', a[|a| - 1], b', b[|b| - 1]);
      assert a == a' + [a[|a| - 1]] && b == b' + [b[|b| - 1]];
      if LexLe(a', b') && LexLe(b', a') {
        LexLeAntisymmetric(a', b');
      }
    }
  }

  lemma {:induction false} LexLeAntisymmetric(a: string, b: string)
    requires |a| == |b| && LexLe(a, b) && LexLe(b, a)
    ensures a == b
  {
    if a != "" {
      LexLeAntisymmetric(a[1..], b[1..]);
      assert a == [a[0]] + a[1..] && b == [b[0]] + b[1..];
    }
  }

  lemma {:induction false} LexLeReflexive(a: string)
    ensures LexLe(a, a)
  {
    if a != "" {
      LexLeReflexive(a[1..]);
    }
  }

  function Repeat(c: char, n: nat): (s: string)
    ensures |s| == n && forall i :: 0 <= i < n ==> s[i] == c
  {
    seq(n, _ => c)
  }

  lemma {:induction false} LexExtremes(s: string)
    requires AllDigits(s)
    ensures LexLe(Repeat('0', |s|), s) && LexLe(s, Repeat('9', |s|))
  {
    if s != "" {
      LexExtremes(s[1..]);
      assert Repeat('0', |s|)[1..] == Repeat('0', |s| - 1);
      assert Repeat('9', |s|)[1..] == Repeat('9', |s| - 1);
    }
  }

  // ---------------------------------------------------------------- alternatives

  datatype Atom = Lit(c: char) | Class(lo: char, hi: char)

  type Alt = seq<Atom>

  predicate AtomMatches(a: Atom, c: char) {
    match a
    case Lit(x) => c == x
    case Class(lo, hi) => lo <= c <= hi
  }

  predicate AltMatches(a: Alt, s: string) {
    |a| == |s| && forall i :: 0 <= i < |a| ==> AtomMatches(a[i], s[i])
  }

  /** How many of the alternatives match a string. */
  ghost function MatchCount(alts: seq<Alt>, s: string): nat {
    if alts == [] then 0 else (if AltMatches(alts[0], s) then 1 else 0) + MatchCount(alts[1..], s)
  }

  function Literal(s: string): Alt { seq(|s|, i requires 0 <= i < |s| => Lit(s[i])) }

  function AnyDigits(n: nat): Alt { seq(n, _ => Class('0', '9')) }

  function PrefixAll(prefix: string, list: seq<Alt>): (out: seq<Alt>)
    ensures |out| == |list|
  {
    seq(|list|, i requires 0 <= i < |list| => Literal(prefix) + list[i])
  }

  /**
   * The alternatives of a fixed-width range whose bounds differ in the first digit, behind a
   * common prefix: `low` covers the tails from lo's upwards, `high` the tails up to hi's, and a
   * class followed by free digits covers the first digits in between. splitFixed and
   * splitNumericRange both contain this code.
   */
  function Fan(prefix: string, lo: string, hi: string, low: seq<Alt>, high: seq<Alt>): seq<Alt>
    requires |lo| == |hi| > 0 && AllDigits(lo) && AllDigits(hi)
  {
    var rest := |lo| - 1;
    var raised, lowered := lo[1..] != Repeat('0', rest), hi[1..] != Repeat('9', rest);
    var start := if raised then Succ(lo[0]) else lo[0];
    var stop := if lowered then Pred(hi[0]) else hi[0];
    (if raised then PrefixAll(prefix + lo[..1], low) else [])
    + (if start <= stop then [Literal(prefix) + ([Class(start, stop)] + AnyDigits(rest))] else [])
    + (if lowered then PrefixAll(prefix + hi[..1], high) else [])
  }

  /** splitFixed: the fixed-width digit strings between lo and hi. */
  function SplitFixed(lo: string, hi: string): seq<Alt>
    requires |lo| == |hi| && AllDigits(lo) && AllDigits(hi)
    decreases |lo|
  {
    if |lo| == 0 then [[]]
    else if lo == hi then [Literal(lo)]
    else if lo[0] == hi[0] then PrefixAll(lo[..1], SplitFixed(lo[1..], hi[1..]))
    else
      Fan("", lo, hi, SplitFixed(lo[1..], Repeat('9', |lo| - 1)), SplitFixed(Repeat('0', |lo| - 1), hi[1..]))
  }

  /** The length of the longest common prefix. */
  function CommonPrefix(a: string, b: string): (i: nat)
    requires |a| == |b|
    ensures i <= |a| && a[..i] == b[..i]
    ensures i < |a| ==> a[i] != b[i]
  {
    if a == "" || a[0] != b[0] then 0
    else
      var k := CommonPrefix(a[1..], b[1..]);
      assert a[..k + 1] == [a[0]] + a[1..][..k] && b[..k + 1] == [b[0]] + b[1..][..k];
      k + 1
  }

  /** The part of splitNumericRange for two different numerals of the same length. */
  function SplitSameLength(ls: string, hs: string): seq<Alt>
    requires |ls| == |hs| && AllDigits(ls) && AllDigits(hs)
    requires var i := CommonPrefix(ls, hs); i < |ls| && ls[i] < hs[i]
  {
    var i := CommonPrefix(ls, hs);
    if i == |ls| - 1 then [Literal(ls[..i]) + [Class(ls[i], hs[i])]]
    else
      var rest := |ls| - i - 1;
      Fan(ls[..i], ls[i..], hs[i..],
          SplitFixed(ls[i + 1..], Repeat('9', rest)), SplitFixed(Repeat('0', rest), hs[i + 1..]))
  }

  /** splitNumericRange: the numbers of a range without leading zeros. */
  function SplitNumericRange(lo: nat, hi: nat): seq<Alt>
    decreases |Itoa(hi)| - |Itoa(lo)|
  {
    if lo > hi then []
    else
      var ls, hs := Itoa(lo), Itoa(hi);
      if |ls| < |hs| then
        DecadeLengths(lo);
        SplitNumericRange(lo, Pow10(|ls|) - 1) + SplitNumericRange(Pow10(|ls|), hi)
      else if lo == hi then [Literal(ls)]
      else
        OrderedLengths(lo, hi);
        SameLengthOrder(lo, hi);
        SplitSameLength(ls, hs)
  }

  lemma OrderedLengths(lo: nat, hi: nat)
    requires lo <= hi
    ensures |Itoa(lo)| <= |Itoa(hi)|
  {
    ItoaValue(lo);
    ItoaValue(hi);
    if |Itoa(hi)| < |Itoa(lo)| {
      LongerIsLarger(Itoa(hi), Itoa(lo));
    }
  }

  lemma OrderedHeads(lo: nat, hi: nat)
    requires lo < hi && |Itoa(lo)| == |Itoa(hi)|
    ensures var i := CommonPrefix(Itoa(lo), Itoa(hi)); i < |Itoa(lo)|
  {
    ItoaValue(lo);
    ItoaValue(hi);
    var i := CommonPrefix(Itoa(lo), Itoa(hi));
    assert Itoa(lo)[..|Itoa(lo)|] == Itoa(lo) && Itoa(hi)[..|Itoa(hi)|] == Itoa(hi);
  }

  lemma {:induction false} PowerLengths(n: nat)
    ensures |Itoa(Pow10(n))| == n + 1
    ensures n > 0 ==> |Itoa(Pow10(n) - 1)| == n
  {
    if n > 0 {
      PowerLengths(n - 1);
    }
  }

  lemma DecadeLengths(lo: nat)
    ensures lo <= Pow10(|Itoa(lo)|) - 1
    ensures |Itoa(Pow10(|Itoa(lo)|) - 1)| == |Itoa(lo)|
    ensures |Itoa(Pow10(|Itoa(lo)|))| == |Itoa(lo)| + 1
  {
    ItoaValue(lo);
    ValueBound(Itoa(lo));
    PowerLengths(|Itoa(lo)|);
  }

  // ---------------------------------------------------------------- denotation

  lemma {:induction false} CountAppend(a: seq<Alt>, b: seq<Alt>, s: string)
    ensures MatchCount(a + b, s) == MatchCount(a, s) + MatchCount(b, s)
  {
    if a == [] {
      assert a + b == b;
    } else {
      CountAppend(a[1..], b, s);
      assert (a + b)[1..] == a[1..] + b;
    }
  }

  lemma PrefixMatches(prefix: string, a: Alt, s: string)
    ensures AltMatches(Literal(prefix) + a, s) <==> prefix <= s && AltMatches(a, s[|prefix|..])
  {
    var whole := Literal(prefix) + a;
    if AltMatches(whole, s) {
      forall i | 0 <= i < |prefix| ensures prefix[i] == s[i] {
        assert AtomMatches(whole[i], s[i]);
      }
      forall i | 0 <= i < |a| ensures AtomMatches(a[i], s[|prefix|..][i]) {
        assert AtomMatches(whole[|prefix| + i], s[|prefix| + i]);
      }
    }
    if prefix <= s && AltMatches(a, s[|prefix|..]) {
      forall i | 0 <= i < |whole| ensures AtomMatches(whole[i], s[i]) {
        if i >= |prefix| {
          assert AtomMatches(a[i - |prefix|], s[|prefix|..][i - |prefix|]);
        }
      }
    }
  }

  lemma {:induction false} CountPrefixed(prefix: string, list: seq<Alt>, s: string)
    ensures MatchCount(PrefixAll(prefix, list), s) == if prefix <= s then MatchCount(list, s[|prefix|..]) else 0
  {
    if list != [] {
      PrefixMatches(prefix, list[0], s);
      CountPrefixed(prefix, list[1..], s);
      assert PrefixAll(prefix, list)[1..] == PrefixAll(prefix, list[1..]);
    }
  }

  lemma CountOne(a: Alt, s: string)
    ensures MatchCount([a], s) == if AltMatches(a, s) then 1 else 0
  {
    assert [a][1..] == [];
    assert MatchCount([a][1..], s) == 0;
  }

  /** The strings a fixed-width range stands for. */
  ghost predicate InFixed(lo: string, hi: string, s: string)
    requires |lo| == |hi|
  {
    |s| == |lo| && AllDigits(s) && LexLe(lo, s) && LexLe(s, hi)
  }

  /** A class followed by any digits matches exactly the strings whose first digit is in the class. */
  lemma ClassBlock(start: char, end: char, rest: nat, s: string)
    requires '0' <= start && end <= '9'
    ensures AltMatches([Class(start, end)] + AnyDigits(rest), s)
            <==> |s| == rest + 1 && AllDigits(s) && start <= s[0] <= end
  {
    var a := [Class(start, end)] + AnyDigits(rest);
    if AltMatches(a, s) {
      assert AtomMatches(a[0], s[0]);
      forall i | 0 <= i < |s| ensures IsDigit(s[i]) {
        assert AtomMatches(a[i], s[i]);
      }
    }
  }

  lemma LiteralMatches(t: string, s: string)
    ensures AltMatches(Literal(t), s) <==> s == t
  {
    if AltMatches(Literal(t), s) {
      forall i | 0 <= i < |t| ensures s[i] == t[i] {
        assert AtomMatches(Literal(t)[i], s[i]);
      }
    }
  }

  /** splitFixed: exactly one alternative matches a digit string of the range, none matches anything else. */
  lemma {:induction false} SplitFixedExact(lo: string, hi: string, s: string)
    requires |lo| == |hi| && AllDigits(lo) && AllDigits(hi) && LexLe(lo, hi)
    ensures MatchCount(SplitFixed(lo, hi), s) == if InFixed(lo, hi, s) then 1 else 0
    decreases |lo|, 2
  {
    if |lo| == 0 {
      CountOne([], s);
    } else if lo == hi {
      CountOne(Literal(lo), s);
      LiteralMatches(lo, s);
      LexLeReflexive(lo);
      if InFixed(lo, hi, s) {
        LexLeAntisymmetric(lo, s);
      }
    } else if lo[0] == hi[0] {
      CountPrefixed(lo[..1], SplitFixed(lo[1..], hi[1..]), s);
      if lo[..1] <= s {
        SplitFixedExact(lo[1..], hi[1..], s[1..]);
      }
      HeadSplit(lo, hi, s);
    } else {
      SplitFixedFan(lo, hi, s);
    }
  }

  /** Membership in a range whose bounds share their first digit. */
  lemma HeadSplit(lo: string, hi: string, s: string)
    requires |lo| == |hi| > 0 && lo[0] == hi[0] && IsDigit(lo[0])
    ensures InFixed(lo, hi, s) <==> lo[..1] <= s && InFixed(lo[1..], hi[1..], s[1..])
  {
    if lo[..1] <= s {
      assert s == [s[0]] + s[1..];
      assert AllDigits(s) <==> AllDigits(s[1..]);
    }
  }

  /** The alternatives between lo and the end of its block of equal first digits. */
  lemma {:induction false} LowEdge(lo: string, s: string)
    requires lo != "" && AllDigits(lo)
    ensures var allHigh := Repeat('9', |lo| - 1);
            MatchCount(PrefixAll("" + lo[..1], SplitFixed(lo[1..], allHigh)), s)
            == if |s| == |lo| && s[0] == lo[0] && InFixed(lo[1..], allHigh, s[1..]) then 1 else 0
    decreases |lo|, 0
  {
    var allHigh := Repeat('9', |lo| - 1);
    LexExtremes(lo[1..]);
    assert "" + lo[..1] == lo[..1];
    CountPrefixed(lo[..1], SplitFixed(lo[1..], allHigh), s);
    if lo[..1] <= s {
      SplitFixedExact(lo[1..], allHigh, s[1..]);
    }
  }

  /** The alternatives from the start of hi's block of equal first digits up to hi. */
  lemma {:induction false} HighEdge(hi: string, s: string)
    requires hi != "" && AllDigits(hi)
    ensures var allLow := Repeat('0', |hi| - 1);
            MatchCount(PrefixAll("" + hi[..1], SplitFixed(allLow, hi[1..])), s)
            == if |s| == |hi| && s[0] == hi[0] && InFixed(allLow, hi[1..], s[1..]) then 1 else 0
    decreases |hi|, 0
  {
    var allLow := Repeat('0', |hi| - 1);
    LexExtremes(hi[1..]);
    assert "" + hi[..1] == hi[..1];
    CountPrefixed(hi[..1], SplitFixed(allLow, hi[1..]), s);
    if hi[..1] <= s {
      SplitFixedExact(allLow, hi[1..], s[1..]);
    }
  }

  lemma MiddleBlock(start: char, stop: char, rest: nat, s: string)
    requires '0' <= start && stop <= '9'
    ensures MatchCount(if start <= stop then [Literal("") + ([Class(start, stop)] + AnyDigits(rest))] else [], s)
            == if |s| == rest + 1 && AllDigits(s) && start <= s[0] <= stop then 1 else 0
  {
    var block := [Class(start, stop)] + AnyDigits(rest);
    assert Literal("") + block == block;
    CountOne(block, s);
    ClassBlock(start, stop, rest, s);
  }

  /** A fan matches as often as its three parts. */
  lemma FanCount(lo: string, hi: string, low: seq<Alt>, high: seq<Alt>, s: string)
    requires |lo| == |hi| > 0 && AllDigits(lo) && AllDigits(hi)
    ensures var rest := |lo| - 1;
            var raised, lowered := lo[1..] != Repeat('0', rest), hi[1..] != Repeat('9', rest);
            var start := if raised then Succ(lo[0]) else lo[0];
            var stop := if lowered then Pred(hi[0]) else hi[0];
            MatchCount(Fan("", lo, hi, low, high), s)
            == (if raised then MatchCount(PrefixAll("" + lo[..1], low), s) else 0)
               + (if |s| == rest + 1 && AllDigits(s) && start <= s[0] <= stop then 1 else 0)
               + (if lowered then MatchCount(PrefixAll("" + hi[..1], high), s) else 0)
  {
    var rest := |lo| - 1;
    var raised, lowered := lo[1..] != Repeat('0', rest), hi[1..] != Repeat('9', rest);
    var start := if raised then Succ(lo[0]) else lo[0];
    var stop := if lowered then Pred(hi[0]) else hi[0];
    var first := if raised then PrefixAll("" + lo[..1], low) else [];
    var middle := if start <= stop then [Literal("") + ([Class(start, stop)] + AnyDigits(rest))] else [];
    var last := if lowered then PrefixAll("" + hi[..1], high) else [];
    CountAppend(first + middle, last, s);
    CountAppend(first, middle, s);
    MiddleBlock(start, stop, rest, s);
  }

  lemma {:induction false} SplitFixedFan(lo: string, hi: string, s: string)
    requires |lo| == |hi| > 0 && AllDigits(lo) && AllDigits(hi) && lo[0] < hi[0]
    ensures MatchCount(SplitFixed(lo, hi), s) == if InFixed(lo, hi, s) then 1 else 0
    decreases |lo|, 1
  {
    hide MatchCount, PrefixAll, Fan, LexLe;
    var rest := |lo| - 1;
    FanCount(lo, hi, SplitFixed(lo[1..], Repeat('9', rest)), SplitFixed(Repeat('0', rest), hi[1..]), s);
    LowEdge(lo, s);
    HighEdge(hi, s);
    FanMembership(lo, hi, s);
  }

  /** Which strings lie in a range whose bounds differ in the first digit. */
  lemma FanMembership(lo: string, hi: string, s: string)
    requires |lo| == |hi| > 0 && AllDigits(lo) && AllDigits(hi) && lo[0] < hi[0]
    ensures var rest := |lo| - 1;
            InFixed(lo, hi, s) <==>
            |s| == |lo| && AllDigits(s)
            && (lo[0] < s[0] < hi[0]
                || (s[0] == lo[0] && InFixed(lo[1..], Repeat('9', rest), s[1..]))
                || (s[0] == hi[0] && InFixed(Repeat('0', rest), hi[1..], s[1..])))
    ensures s != "" && |s| == |lo| && AllDigits(s) ==>
            (lo[1..] == Repeat('0', |lo| - 1) ==> InFixed(lo[1..], Repeat('9', |lo| - 1), s[1..]))
            && (hi[1..] == Repeat('9', |lo| - 1) ==> InFixed(Repeat('0', |lo| - 1), hi[1..], s[1..]))
  {
    if |s| == |lo| && AllDigits(s) {
      LexExtremes(s[1..]);
    }
  }

  // ---------------------------------------------------------------- numbers of a range

  lemma PrefixTwice(p: string, q: string, list: seq<Alt>)
    ensures PrefixAll(p, PrefixAll(q, list)) == PrefixAll(p + q, list)
  {
    assert Literal(p + q) == Literal(p) + Literal(q);
    forall i | 0 <= i < |list| ensures PrefixAll(p, PrefixAll(q, list))[i] == PrefixAll(p + q, list)[i] {
      assert Literal(p) + (Literal(q) + list[i]) == Literal(p + q) + list[i];
    }
  }

  lemma PrefixConcat(p: string, a: seq<Alt>, b: seq<Alt>)
    ensures PrefixAll(p, a + b) == PrefixAll(p, a) + PrefixAll(p, b)
  {
  }

  lemma PrefixedFan(prefix: string, lo: string, hi: string, low: seq<Alt>, high: seq<Alt>)
    requires |lo| == |hi| > 0 && AllDigits(lo) && AllDigits(hi)
    ensures PrefixAll(prefix, Fan("", lo, hi, low, high)) == Fan(prefix, lo, hi, low, high)
  {
    var rest := |lo| - 1;
    var raised, lowered := lo[1..] != Repeat('0', rest), hi[1..] != Repeat('9', rest);
    var start := if raised then Succ(lo[0]) else lo[0];
    var stop := if lowered then Pred(hi[0]) else hi[0];
    var block := [Class(start, stop)] + AnyDigits(rest);
    var first := if raised then PrefixAll("" + lo[..1], low) else [];
    var middle := if start <= stop then [Literal("") + block] else [];
    var last := if lowered then PrefixAll("" + hi[..1], high) else [];
    PrefixConcat(prefix, first + middle, last);
    PrefixConcat(prefix, first, middle);
    assert "" + lo[..1] == lo[..1] && "" + hi[..1] == hi[..1];
    PrefixTwice(prefix, lo[..1], low);
    PrefixTwice(prefix, hi[..1], high);
    assert Literal("") + block == block;
    assert PrefixAll(prefix, [block]) == [Literal(prefix) + block];
  }

  lemma LastDigitIsFan(ls: string, hs: string, i: nat)
    requires |ls| == |hs| && AllDigits(ls) && AllDigits(hs) && i == CommonPrefix(ls, hs)
    requires i == |ls| - 1 && ls[i] < hs[i]
    ensures SplitSameLength(ls, hs) == Fan(ls[..i], ls[i..], hs[i..], [[]], [[]])
  {
    assert ls[i..][1..] == Repeat('0', 0) && hs[i..][1..] == Repeat('9', 0);
    var block := [Class(ls[i], hs[i])];
    assert block + AnyDigits(0) == block;
  }

  /** A fixed-width range whose bounds differ in the first digit fans out there. */
  lemma FixedIsFan(lo: string, hi: string)
    requires |lo| == |hi| > 0 && AllDigits(lo) && AllDigits(hi) && lo[0] < hi[0]
    ensures var rest := |lo| - 1;
            SplitFixed(lo, hi) == Fan("", lo, hi, SplitFixed(lo[1..], Repeat('9', rest)), SplitFixed(Repeat('0', rest), hi[1..]))
  {
  }

  /** Between numerals of equal length the numeric split is the fixed-width split below the common prefix. */
  lemma SameLengthIsFixed(ls: string, hs: string, i: nat)
    requires |ls| == |hs| && AllDigits(ls) && AllDigits(hs) && i == CommonPrefix(ls, hs)
    requires i < |ls| && ls[i] < hs[i]
    ensures SplitSameLength(ls, hs) == PrefixAll(ls[..i], SplitFixed(ls[i..], hs[i..]))
  {
    hide Fan, PrefixAll, CommonPrefix, SplitFixed;
    var rest := |ls| - i - 1;
    assert ls[i..][1..] == ls[i + 1..] && hs[i..][1..] == hs[i + 1..];
    var low, high := SplitFixed(ls[i + 1..], Repeat('9', rest)), SplitFixed(Repeat('0', rest), hs[i + 1..]);
    FixedIsFan(ls[i..], hs[i..]);
    PrefixedFan(ls[..i], ls[i..], hs[i..], low, high);
    if i == |ls| - 1 {
      LastDigitIsFan(ls, hs, i);
      NothingLeft(ls[i + 1..], Repeat('9', rest));
      NothingLeft(Repeat('0', rest), hs[i + 1..]);
    }
  }

  lemma NothingLeft(lo: string, hi: string)
    requires |lo| == |hi| == 0
    ensures SplitFixed(lo, hi) == [[]]
  {
  }

  lemma SameLengthOrder(lo: nat, hi: nat)
    requires lo < hi && |Itoa(lo)| == |Itoa(hi)|
    ensures LexLe(Itoa(lo), Itoa(hi))
    ensures var i := CommonPrefix(Itoa(lo), Itoa(hi)); i < |Itoa(lo)| && Itoa(lo)[i] < Itoa(hi)[i]
  {
    ItoaValue(lo);
    ItoaValue(hi);
    LexIsValueOrder(Itoa(lo), Itoa(hi));
    OrderedHeads(lo, hi);
    FirstDifference(Itoa(lo), Itoa(hi));
  }

  lemma {:induction false} FirstDifference(a: string, b: string)
    requires |a| == |b| && LexLe(a, b)
    ensures var i := CommonPrefix(a, b); i < |a| ==> a[i] < b[i]
  {
    if a != "" && a[0] == b[0] {
      FirstDifference(a[1..], b[1..]);
    }
  }

  lemma {:induction false} PrefixSplit(lo: string, hi: string, i: nat, s: string)
    requires |lo| == |hi| && i <= |lo| && lo[..i] == hi[..i] && AllDigits(lo)
    ensures InFixed(lo, hi, s) <==> lo[..i] <= s && InFixed(lo[i..], hi[i..], s[i..])
  {
    if i == 0 {
      assert lo[0..] == lo && hi[0..] == hi && s[0..] == s;
    } else {
      assert lo[0] == lo[..i][0] == hi[..i][0] == hi[0];
      HeadSplit(lo, hi, s);
      if s != "" {
        assert lo[1..][..i - 1] == lo[..i][1..] && hi[1..][..i - 1] == hi[..i][1..];
        PrefixSplit(lo[1..], hi[1..], i - 1, s[1..]);
        assert lo[1..][i - 1..] == lo[i..] && hi[1..][i - 1..] == hi[i..];
        assert lo[..i] == [lo[0]] + lo[1..][..i - 1] && s == [s[0]] + s[1..];
        if lo[..i] <= s {
          assert s[1..][i - 1..] == s[i..];
        }
        if lo[..1] <= s && lo[1..][..i - 1] <= s[1..] {
          assert s[1..][i - 1..] == s[i..];
        }
      }
    }
  }

  lemma SameLengthExact(lo: nat, hi: nat, s: string)
    requires lo <= hi && |Itoa(lo)| == |Itoa(hi)|
    ensures MatchCount(SplitNumericRange(lo, hi), s) == if InFixed(Itoa(lo), Itoa(hi), s) then 1 else 0
  {
    var ls, hs := Itoa(lo), Itoa(hi);
    if lo == hi {
      CountOne(Literal(ls), s);
      LiteralMatches(ls, s);
      LexLeReflexive(ls);
      if InFixed(ls, hs, s) {
        LexLeAntisymmetric(ls, s);
      }
    } else {
      SameLengthOrder(lo, hi);
      var i := CommonPrefix(ls, hs);
      SameLengthIsFixed(ls, hs, i);
      CountPrefixed(ls[..i], SplitFixed(ls[i..], hs[i..]), s);
      PrefixSplit(ls, hs, i, s);
      if ls[..i] <= s {
        SplitFixedExact(ls[i..], hs[i..], s[i..]);
      }
    }
  }

  lemma FixedIsNumeric(lo: nat, hi: nat, s: string)
    requires lo <= hi && |Itoa(lo)| == |Itoa(hi)|
    ensures InFixed(Itoa(lo), Itoa(hi), s) <==> Canonical(s) && lo <= Value(s) <= hi
  {
    var ls, hs := Itoa(lo), Itoa(hi);
    ItoaValue(lo);
    ItoaValue(hi);
    if AllDigits(s) && |s| == |ls| {
      LexIsValueOrder(ls, s);
      LexIsValueOrder(s, hs);
    }
    if Canonical(s) && |s| < |ls| {
      LongerIsLarger(s, ls);
    }
    if Canonical(s) && |s| > |hs| {
      LongerIsLarger(hs, s);
    }
  }

  lemma LongerPassesDecade(lo: nat, hi: nat)
    requires |Itoa(lo)| < |Itoa(hi)|
    ensures Pow10(|Itoa(lo)|) <= hi
  {
    var n := |Itoa(lo)|;
    ItoaValue(hi);
    CanonicalLength(Itoa(hi));
    PowMonotone(n, |Itoa(hi)| - 1);
  }

  /**
   * splitNumericRange denotes exactly the numerals without leading zeros of [lo, hi], and no
   * such numeral is matched by two of the alternatives.
   */
  lemma {:induction false} SplitNumericRangeExact(lo: nat, hi: nat, s: string)
    ensures MatchCount(SplitNumericRange(lo, hi), s) == if Canonical(s) && lo <= Value(s) <= hi then 1 else 0
    decreases |Itoa(hi)| - |Itoa(lo)|, 1
  {
    if lo <= hi {
      OrderedLengths(lo, hi);
      if |Itoa(lo)| < |Itoa(hi)| {
        DecadeSplitExact(lo, hi, s);
      } else {
        SameLengthExact(lo, hi, s);
        FixedIsNumeric(lo, hi, s);
      }
    }
  }

  lemma DecadeSplit(lo: nat, hi: nat)
    requires lo <= hi && |Itoa(lo)| < |Itoa(hi)|
    ensures var pow := Pow10(|Itoa(lo)|);
            SplitNumericRange(lo, hi) == SplitNumericRange(lo, pow - 1) + SplitNumericRange(pow, hi)
  {
    hide Itoa, Pow10, SplitSameLength;
  }

  lemma {:induction false} DecadeSplitExact(lo: nat, hi: nat, s: string)
    requires lo <= hi && |Itoa(lo)| < |Itoa(hi)|
    ensures MatchCount(SplitNumericRange(lo, hi), s) == if Canonical(s) && lo <= Value(s) <= hi then 1 else 0
    decreases |Itoa(hi)| - |Itoa(lo)|, 0
  {
    hide MatchCount, Value, SplitNumericRange, Itoa, Pow10;
    var pow := Pow10(|Itoa(lo)|);
    DecadeLengths(lo);
    LongerPassesDecade(lo, hi);
    DecadeSplit(lo, hi);
    SplitNumericRangeExact(lo, pow - 1, s);
    SplitNumericRangeExact(pow, hi, s);
    CountAppend(SplitNumericRange(lo, pow - 1), SplitNumericRange(pow, hi), s);
  }

  // ---------------------------------------------------------------- the whole expression

  /** `(?:a|b)` or `0*(?:a|b)`. */
  datatype Regexp = Alternation(alts: seq<Alt>) | ZerosThen(alts: seq<Alt>)

  ghost predicate AllZeros(s: string) { forall i :: 0 <= i < |s| ==> s[i] == '0' }

  ghost predicate Matches(r: Regexp, s: string) {
    match r
    case Alternation(alts) => MatchCount(alts, s) > 0
    case ZerosThen(alts) => exists k :: 0 <= k <= |s| && AllZeros(s[..k]) && MatchCount(alts, s[k..]) > 0
  }

  /** `fmt.Sprintf("%0*d", digits, n)`. */
  function Padded(n: nat, digits: nat): string {
    (if |Itoa(n)| < digits then Repeat('0', digits - |Itoa(n)|) else "") + Itoa(n)
  }

  const MAX_INT := 0x7fff_ffff_ffff_ffff
  const MIN_INT := -0x8000_0000_0000_0000

  /** `n++` on 64 bits. */
  function NextInt(n: int): int { if n == MAX_INT then MIN_INT else n + 1 }

  /** The counter after i steps from lo. */
  function IntAt(lo: nat, i: nat): int { if lo + i <= MAX_INT then lo + i else lo + i - MAX_INT - 1 + MIN_INT }

  /** The same of a negative number: the width includes the sign. */
  function PaddedInt(n: int, digits: nat): string
    requires digits > 0
  {
    if n >= 0 then Padded(n, digits) else "-" + Padded(-n, digits - 1)
  }

  /** The literals of the first count values of the counter, padded. */
  function PaddedRun(lo: nat, count: nat, digits: nat): (out: seq<Alt>)
    requires digits > 0
    ensures |out| == count
  {
    seq(count, i requires 0 <= i < count => Literal(PaddedInt(IntAt(lo, i), digits)))
  }

  const PADDED_LIMIT := 5000

  /** How often the loop turns: with the greatest integer as upper bound, it never stops by itself. */
  function Turns(lo: nat, hi: nat): (n: nat)
    requires lo <= hi
  {
    if hi == MAX_INT || hi - lo >= PADDED_LIMIT then PADDED_LIMIT else hi - lo + 1
  }

  function DecimalInterval(lo: nat, hi: nat, digits: nat): Regexp
    requires lo <= hi <= MAX_INT
  {
    if digits > 0 && hi - lo < PADDED_LIMIT then Alternation(PaddedRun(lo, Turns(lo, hi), digits))
    else ZerosThen(SplitNumericRange(lo, hi))
  }

  /** decimalIntervalRegexp, with the loop that builds the padded alternatives. */
  method DecimalIntervalRegexp(lo: nat, hi: nat, digits: nat) returns (r: Regexp)
    requires lo <= hi <= MAX_INT
    ensures r == DecimalInterval(lo, hi, digits)
  {
    var alts := SplitNumericRange(lo, hi);
    if digits > 0 {
      var padded: seq<Alt> := [];
      var n: int := lo;
      while n <= hi && |padded| < PADDED_LIMIT
        invariant n == IntAt(lo, |padded|) && |padded| <= Turns(lo, hi)
        invariant padded == PaddedRun(lo, |padded|, digits)
        decreases PADDED_LIMIT - |padded|
      {
        hide Padded;
        padded := padded + [Literal(PaddedInt(n, digits))];
        n := NextInt(n);
      }
      if hi - lo < PADDED_LIMIT {
        return Alternation(padded);
      }
    }
    return ZerosThen(alts);
  }

  lemma {:induction false} LeadingZeros(s: string)
    requires s != "" && AllDigits(s)
    ensures exists k :: 0 <= k < |s| && AllZeros(s[..k]) && Canonical(s[k..])
  {
    if |s| > 1 && s[0] == '0' {
      LeadingZeros(s[1..]);
      var k :| 0 <= k < |s[1..]| && AllZeros(s[1..][..k]) && Canonical(s[1..][k..]);
      assert s[..k + 1] == [s[0]] + s[1..][..k] && s[k + 1..] == s[1..][k..];
    } else {
      assert s[..0] == "" && s[0..] == s;
    }
  }

  lemma {:induction false} DropZeros(s: string, k: nat)
    requires k <= |s| && AllZeros(s[..k]) && AllDigits(s[k..])
    ensures AllDigits(s) && Value(s) == Value(s[k..])
    decreases |s|
  {
    assert s == s[..k] + s[k..];
    if k < |s| {
      var s' := s[..|s| - 1];
      assert s'[..k] == s[..k] && s'[k..] == s[k..][..|s| - k - 1];
      DropZeros(s', k);
    } else if k > 0 {
      var s' := s[..|s| - 1];
      assert s'[..k - 1] == s[..k - 1] && s'[k - 1..] == "" && s[k..] == "";
      assert forall i :: 0 <= i < k - 1 ==> s'[..k - 1][i] == s[..k][i];
      DropZeros(s', k - 1);
      assert s[..k][k - 1] == '0';
    }
  }

  /** Without a width the expression matches the digit strings whose value is in [lo, hi], leading zeros or not. */
  lemma ZerosThenExact(lo: nat, hi: nat, s: string)
    requires lo <= hi
    ensures Matches(ZerosThen(SplitNumericRange(lo, hi)), s) <==> s != "" && AllDigits(s) && lo <= Value(s) <= hi
  {
    var alts := SplitNumericRange(lo, hi);
    if Matches(ZerosThen(alts), s) {
      var k :| 0 <= k <= |s| && AllZeros(s[..k]) && MatchCount(alts, s[k..]) > 0;
      SplitNumericRangeExact(lo, hi, s[k..]);
      DropZeros(s, k);
    }
    if s != "" && AllDigits(s) && lo <= Value(s) <= hi {
      LeadingZeros(s);
      var k :| 0 <= k < |s| && AllZeros(s[..k]) && Canonical(s[k..]);
      DropZeros(s, k);
      SplitNumericRangeExact(lo, hi, s[k..]);
    }
  }

  lemma {:induction false} CountLiterals(alts: seq<Alt>, s: string)
    ensures MatchCount(alts, s) > 0 <==> exists i :: 0 <= i < |alts| && AltMatches(alts[i], s)
  {
    if alts != [] {
      CountLiterals(alts[1..], s);
      if i :| 0 <= i < |alts| && AltMatches(alts[i], s) {
        if i > 0 {
          assert AltMatches(alts[1..][i - 1], s);
        }
      }
      if i :| 0 <= i < |alts[1..]| && AltMatches(alts[1..][i], s) {
        assert AltMatches(alts[i + 1], s);
      }
    }
  }

  lemma PaddedIsTheNumeral(n: nat, digits: nat, s: string)
    requires |Itoa(n)| <= digits
    ensures Padded(n, digits) == s <==> |s| == digits && AllDigits(s) && Value(s) == n
  {
    var p, z := Padded(n, digits), digits - |Itoa(n)|;
    ItoaValue(n);
    assert p[..z] == Repeat('0', z) && p[z..] == Itoa(n);
    DropZeros(p, z);
    if |s| == digits && AllDigits(s) && Value(s) == n {
      LexIsValueOrder(s, p);
      LexIsValueOrder(p, s);
      LexLeAntisymmetric(s, p);
    }
  }

  /** A negative numeral that the counter reaches after the greatest integer. */
  ghost predicate Wrapped(lo: nat, hi: nat, digits: nat, s: string)
    requires lo <= hi <= MAX_INT && digits > 0
  {
    hi == MAX_INT && exists j :: WrappedBy(lo, hi, digits, s, j)
  }

  ghost predicate WrappedBy(lo: nat, hi: nat, digits: nat, s: string, j: int)
    requires digits > 0
  {
    0 <= j < PADDED_LIMIT - 1 - (hi - lo) && s == PaddedInt(MIN_INT + j, digits)
  }

  lemma NegativeIsNoNumeral(n: int, digits: nat)
    requires n < 0 && digits > 0
    ensures !AllDigits(PaddedInt(n, digits))
  {
    assert PaddedInt(n, digits)[0] == '-';
  }

  /** The padded alternatives match the numerals of the width in [lo, hi], and what the counter wraps to. */
  lemma PaddedRunExact(lo: nat, hi: nat, digits: nat, s: string)
    requires lo <= hi <= MAX_INT && |Itoa(hi)| <= digits && hi - lo < PADDED_LIMIT
    ensures Matches(Alternation(PaddedRun(lo, Turns(lo, hi), digits)), s)
            <==> (|s| == digits && AllDigits(s) && lo <= Value(s) <= hi) || Wrapped(lo, hi, digits, s)
  {
    hide AltMatches, Itoa, MatchCount, PaddedInt, Literal;
    var alts := PaddedRun(lo, Turns(lo, hi), digits);
    CountLiterals(alts, s);
    forall i | 0 <= i < |alts|
      ensures AltMatches(alts[i], s) <==>
              if i <= hi - lo then |s| == digits && AllDigits(s) && Value(s) == lo + i
              else s == PaddedInt(MIN_INT + (i - 1 - (hi - lo)), digits)
    {
      TurnDenotes(lo, hi, digits, s, i);
    }
    hide PaddedRun, AltMatches, PaddedInt;
    RunDenotes(lo, hi, digits, s, alts);
  }

  lemma TurnDenotes(lo: nat, hi: nat, digits: nat, s: string, i: nat)
    requires lo <= hi <= MAX_INT && |Itoa(hi)| <= digits && i < Turns(lo, hi)
    ensures AltMatches(Literal(PaddedInt(IntAt(lo, i), digits)), s) <==>
            if i <= hi - lo then |s| == digits && AllDigits(s) && Value(s) == lo + i
            else s == PaddedInt(MIN_INT + (i - 1 - (hi - lo)), digits)
  {
    LiteralMatches(PaddedInt(IntAt(lo, i), digits), s);
    hide Itoa, Literal, AltMatches, Padded;
    if i <= hi - lo {
      OrderedLengths(lo + i, hi);
      PaddedIsTheNumeral(lo + i, digits, s);
    }
  }

  lemma RunDenotes(lo: nat, hi: nat, digits: nat, s: string, alts: seq<Alt>)
    requires lo <= hi <= MAX_INT && digits > 0 && hi - lo < PADDED_LIMIT && |alts| == Turns(lo, hi)
    requires forall i :: 0 <= i < |alts| ==>
               (AltMatches(alts[i], s) <==>
                  if i <= hi - lo then |s| == digits && AllDigits(s) && Value(s) == lo + i
                  else s == PaddedInt(MIN_INT + (i - 1 - (hi - lo)), digits))
    ensures (exists i :: 0 <= i < |alts| && AltMatches(alts[i], s))
            <==> (|s| == digits && AllDigits(s) && lo <= Value(s) <= hi) || Wrapped(lo, hi, digits, s)
  {
    hide AltMatches, PaddedInt;
    if |s| == digits && AllDigits(s) && lo <= Value(s) <= hi {
      assert AltMatches(alts[Value(s) - lo], s);
    }
    if Wrapped(lo, hi, digits, s) {
      var j :| WrappedBy(lo, hi, digits, s, j);
      assert AltMatches(alts[j + 1 + (hi - lo)], s);
    }
    if i :| 0 <= i < |alts| && AltMatches(alts[i], s) {
      if i > hi - lo {
        assert WrappedBy(lo, hi, digits, s, i - 1 - (hi - lo));
      }
    }
  }

  /** What the expression of `<lo-hi>` denotes; `digits` is the common width of the two bounds, 0 when they differ. */
  lemma DecimalIntervalDenotes(lo: nat, hi: nat, digits: nat, s: string)
    requires lo <= hi <= MAX_INT && (digits > 0 ==> |Itoa(hi)| <= digits)
    ensures Matches(DecimalInterval(lo, hi, digits), s) <==>
            if digits > 0 && hi - lo < PADDED_LIMIT
            then (|s| == digits && AllDigits(s) && lo <= Value(s) <= hi) || Wrapped(lo, hi, digits, s)
            else s != "" && AllDigits(s) && lo <= Value(s) <= hi
  {
    if digits > 0 && hi - lo < PADDED_LIMIT {
      PaddedRunExact(lo, hi, digits, s);
    } else {
      ZerosThenExact(lo, hi, s);
    }
  }

  /** The expression matches just the numbers of the width. */
  ghost predicate KeepsWidth(lo: nat, hi: nat, digits: nat)
    requires lo <= hi <= MAX_INT
  {
    forall s :: Matches(DecimalInterval(lo, hi, digits), s) <==> |s| == digits && AllDigits(s) && lo <= Value(s) <= hi
  }

  lemma TooWide(lo: nat, hi: nat, digits: nat)
    requires lo <= hi <= MAX_INT && digits > 0 && |Itoa(hi)| <= digits && hi - lo >= PADDED_LIMIT
    ensures !KeepsWidth(lo, hi, digits)
  {
    hide Matches, DecimalInterval, PaddedInt;
    var wide := Padded(hi, digits + 1);
    PaddedIsTheNumeral(hi, digits + 1, wide);
    DecimalIntervalDenotes(lo, hi, digits, wide);
    hide Padded, Itoa, AllDigits;
    assert Matches(DecimalInterval(lo, hi, digits), wide) && |wide| == digits + 1;
  }

  /** With the greatest integer as upper bound, the least one is matched too, unless there is no room left. */
  lemma CounterWraps(lo: nat, digits: nat)
    requires MAX_INT - lo < PADDED_LIMIT - 1 && lo <= MAX_INT && |Itoa(MAX_INT)| <= digits
    ensures Matches(DecimalInterval(lo, MAX_INT, digits), PaddedInt(MIN_INT, digits)) && PaddedInt(MIN_INT, digits)[0] == '-'
    ensures !KeepsWidth(lo, MAX_INT, digits)
  {
    var s := PaddedInt(MIN_INT, digits);
    NegativeIsNoNumeral(MIN_INT, digits);
    hide Matches, DecimalInterval, PaddedInt, Itoa, AllDigits;
    assert WrappedBy(lo, MAX_INT, digits, s, 0);
    DecimalIntervalDenotes(lo, MAX_INT, digits, s);
  }

  /**
   * The source promises that a width constrains the numbers to that width. It does exactly when the
   * interval is narrow enough for the padded alternatives, since a wider one also matches numerals of
   * any other width, and when the counter does not wrap before the limit.
   */
  lemma WidthKeptIffNarrow(lo: nat, hi: nat, digits: nat)
    requires lo <= hi <= MAX_INT && digits > 0 && |Itoa(hi)| <= digits
    ensures KeepsWidth(lo, hi, digits) <==> hi - lo < PADDED_LIMIT && (hi < MAX_INT || hi - lo == PADDED_LIMIT - 1)
  {
    hide Matches, DecimalInterval, PaddedInt, Itoa, AllDigits;
    if hi - lo >= PADDED_LIMIT {
      TooWide(lo, hi, digits);
    } else if hi == MAX_INT && hi - lo < PADDED_LIMIT - 1 {
      CounterWraps(lo, digits);
    } else {
      forall s ensures Matches(DecimalInterval(lo, hi, digits), s) <==> |s| == digits && AllDigits(s) && lo <= Value(s) <= hi {
        DecimalIntervalDenotes(lo, hi, digits, s);
      }
    }
  }
}

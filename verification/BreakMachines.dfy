/**
 * The rule based break machines over UTF-16 text, internal/engine/breakiter.go, as functions, and
 * what they promise. The character categories are a parameter: any function to the columns of the
 * tables, or -1 for a character that is skipped.
 */
module BreakMachines {
  import opened BreakRules

  /** CharacterIterator.DONE; a text that has this code unit stops the machines there. */
  const END_CHAR := 0xffff

  type Unit = x: int | 0 <= x < 0x10000

  // ---------------------------------------------------------------- code points

  predicate High(u: int) { 0xd800 <= u < 0xdc00 }

  predicate Low(u: int) { 0xdc00 <= u < 0xe000 }

  function CodePoint(high: int, low: int): int { (high - 0xd800) * 0x400 + low - 0xdc00 + 0x10000 }

  /** Position i lies between the two units of a surrogate pair. */
  predicate Inside(text: seq<Unit>, i: int) {
    0 < i < |text| && High(text[i - 1]) && Low(text[i])
  }

  predicate Boundary(text: seq<Unit>, i: int) {
    0 <= i <= |text| && !Inside(text, i)
  }

  /** codePointCount: the number of units of the character at i. */
  function Count(text: seq<Unit>, i: nat): (n: nat)
    ensures 1 <= n <= 2
    ensures i < |text| ==> i + n <= |text| && Boundary(text, i + n)
    ensures forall j :: i < j < i + n ==> !Boundary(text, j)
  {
    if i + 1 < |text| && High(text[i]) && Low(text[i + 1]) then 2 else 1
  }

  function CharAt(text: seq<Unit>, i: nat): int {
    if i >= |text| then END_CHAR
    else if Count(text, i) == 2 then CodePoint(text[i], text[i + 1])
    else text[i]
  }

  function IndexAfter(text: seq<Unit>, i: nat): (r: nat)
    requires i <= |text|
    ensures i <= r <= |text| && (i < |text| ==> i < r && Boundary(text, r))
  {
    if i + Count(text, i) < |text| then i + Count(text, i) else |text|
  }

  /** Where getPrevious moves to. From inside a pair it finds the high unit, whose character ends after i. */
  function Before(text: seq<Unit>, i: nat): (r: nat)
    requires 0 < i <= |text|
    ensures r < i && Boundary(text, r)
    ensures r + Count(text, r) == if Boundary(text, i) then i else i + 1
  {
    if Low(text[i - 1]) && i > 1 && High(text[i - 2]) then i - 2 else i - 1
  }

  /** The character that getPrevious returns. */
  function CharBefore(text: seq<Unit>, i: nat): int
    requires 0 < i <= |text|
  {
    if Low(text[i - 1]) && i > 1 && High(text[i - 2]) then CodePoint(text[i - 2], text[i - 1]) else text[i - 1]
  }

  /** Surrogate pairs are the characters from 0x10000 to 0x10ffff, each in one way. */
  lemma PairsAreCharacters(high: int, low: int, c: int)
    ensures High(high) && Low(low) && CodePoint(high, low) == c
       <==> 0x10000 <= c < 0x110000 && high == 0xd800 + (c - 0x10000) / 0x400 && low == 0xdc00 + (c - 0x10000) % 0x400
  {
  }

  /** At a boundary, the character before it is the one that is read from where getPrevious moves to. */
  lemma BeforeIsAt(text: seq<Unit>, i: nat)
    requires 0 < i <= |text| && Boundary(text, i)
    ensures CharBefore(text, i) == CharAt(text, Before(text, i))
  {
  }

  // ---------------------------------------------------------------- the forward machine

  datatype Machine = Machine(rules: Rules, classOf: int -> int, format: int -> bool)

  ghost predicate Works(m: Machine) {
    Good(m.rules) && m.rules.categories > 0 && forall c :: -1 <= m.classOf(c) < m.rules.categories
  }

  /** Supplementary format characters are not skipped. */
  function Category(m: Machine, c: int): (cat: int)
    requires Works(m)
    ensures -1 <= cat < m.rules.categories
  {
    if c >= 0x10000 && m.format(c) then 0 else m.classOf(c)
  }

  /** Only supplementary format characters are not in their own category. */
  lemma CategoryOf(m: Machine, c: int)
    requires Works(m)
    ensures Category(m, c) != m.classOf(c) ==> c >= 0x10000 && m.format(c)
    ensures c >= 0x10000 && m.format(c) ==> Category(m, c) == 0
  {
  }

  function Next(table: seq<seq<nat>>, state: nat, cat: int): (next: nat)
    requires state < |table| && cat < |table[state]|
  {
    if cat >= 0 then table[state][cat] else state
  }

  /** The state, the saved position and the break after one character. */
  datatype Marks = Marks(state: nat, lookahead: nat, result: nat)

  predicate InTable(m: Machine, s: nat) { s < |m.rules.forward| }

  function Feed(m: Machine, text: seq<Unit>, pos: nat, k: Marks): (r: Marks)
    requires Works(m) && pos < |text| && InTable(m, k.state)
    ensures InTable(m, r.state)
  {
    var cat := Category(m, CharAt(text, pos));
    ForwardStays(m.rules, k.state, cat);
    var state := Next(m.rules.forward, k.state, cat);
    if state in m.rules.lookahead && state in m.rules.accepting then Marks(state, k.lookahead, k.lookahead)
    else if state in m.rules.lookahead then Marks(state, IndexAfter(text, pos), k.result)
    else if state in m.rules.accepting then Marks(state, k.lookahead, IndexAfter(text, pos))
    else k.(state := state)
  }

  lemma ForwardStays(r: Rules, state: nat, cat: int)
    requires Good(r) && state < |r.forward| && cat < r.categories
    ensures |r.forward[state]| == r.categories && Next(r.forward, state, cat) < |r.forward|
  {
    if cat >= 0 {
      assert r.forward[state][cat] in r.forward[state];
    }
  }

  /** The forward machine from the character at pos on. */
  function Forward(m: Machine, text: seq<Unit>, pos: nat, k: Marks): (r: nat)
    requires Works(m) && pos < |text| && InTable(m, k.state)
    decreases |text| - pos
  {
    if CharAt(text, pos) == END_CHAR then AtEnd(text, k)
    else if k.state == 0 then k.result
    else
      var k' := Feed(m, text, pos, k);
      var next := pos + Count(text, pos);
      if next >= |text| then AtEnd(text, k') else Forward(m, text, next, k')
  }

  /** A position saved at the very end of the text is the break. */
  function AtEnd(text: seq<Unit>, k: Marks): nat {
    if k.lookahead == |text| then k.lookahead else k.result
  }

  /** The machine at pos after c was read there, or END_CHAR because the text ended. */
  function ForwardAt(m: Machine, text: seq<Unit>, pos: nat, c: int, k: Marks): (r: nat)
    requires Works(m) && pos < |text| && InTable(m, k.state)
  {
    if c == END_CHAR then AtEnd(text, k) else Forward(m, text, pos, k)
  }

  lemma ForwardStep(m: Machine, text: seq<Unit>, pos: nat, k: Marks, c: int)
    requires Works(m) && pos < |text| && InTable(m, k.state) && CharAt(text, pos) != END_CHAR && k.state != 0
    requires c == if Step(text, pos) == pos then END_CHAR else CharAt(text, Step(text, pos))
    ensures Forward(m, text, pos, k) == ForwardAt(m, text, Step(text, pos), c, Feed(m, text, pos, k))
  {
  }

  /** The break that follows a position. */
  function NextBreak(m: Machine, text: seq<Unit>, start: nat): (r: nat)
    requires Works(m) && start < |text|
  {
    Forward(m, text, start, Marks(1, 0, IndexAfter(text, start)))
  }

  /** A position that a break may have: after the start, and not inside a pair. */
  ghost predicate Later(text: seq<Unit>, start: nat, i: nat) { start < i && Boundary(text, i) }

  ghost predicate MarksGood(m: Machine, text: seq<Unit>, start: nat, armed: set<nat>, k: Marks) {
    && InTable(m, k.state) && Later(text, start, k.result)
    && (k.lookahead == 0 || Later(text, start, k.lookahead))
    && (k.state in armed ==> k.lookahead > 0)
  }

  lemma FeedGood(m: Machine, text: seq<Unit>, start: nat, armed: set<nat>, pos: nat, k: Marks)
    requires Works(m) && Arms(m.rules, armed) && start <= pos < |text| && MarksGood(m, text, start, armed, k)
    ensures MarksGood(m, text, start, armed, Feed(m, text, pos, k))
  {
    var cat := Category(m, CharAt(text, pos));
    ForwardStays(m.rules, k.state, cat);
    if cat >= 0 {
      assert m.rules.forward[k.state][cat] in m.rules.forward[k.state];
    }
  }

  lemma {:induction false} ForwardGood(m: Machine, text: seq<Unit>, start: nat, armed: set<nat>, pos: nat, k: Marks)
    requires Works(m) && Arms(m.rules, armed) && start <= pos < |text| && MarksGood(m, text, start, armed, k)
    ensures Later(text, start, Forward(m, text, pos, k))
    decreases |text| - pos
  {
    if CharAt(text, pos) != END_CHAR && k.state != 0 {
      FeedGood(m, text, start, armed, pos, k);
      if pos + Count(text, pos) < |text| {
        ForwardGood(m, text, start, armed, pos + Count(text, pos), Feed(m, text, pos, k));
      }
    }
  }

  /** The next break is further on, at most at the end, and never inside a surrogate pair. */
  lemma NextBreakGood(m: Machine, text: seq<Unit>, start: nat)
    requires Works(m) && start < |text|
    ensures start < NextBreak(m, text, start) <= |text| && Boundary(text, NextBreak(m, text, start))
  {
    var armed :| Arms(m.rules, armed);
    ForwardGood(m, text, start, armed, start, Marks(1, 0, IndexAfter(text, start)));
  }

  // ---------------------------------------------------------------- all breaks of a text

  /** The breaks that repeated calls of next give. */
  function Breaks(m: Machine, text: seq<Unit>, start: nat): (bs: seq<nat>)
    requires Works(m) && start <= |text|
    decreases |text| - start
  {
    if start == |text| then []
    else
      NextBreakGood(m, text, start);
      [NextBreak(m, text, start)] + Breaks(m, text, NextBreak(m, text, start))
  }

  /** They increase strictly, end at the end of the text and split no surrogate pair. */
  lemma {:induction false} BreaksGood(m: Machine, text: seq<Unit>, start: nat)
    requires Works(m) && start < |text|
    ensures var bs := Breaks(m, text, start);
            && bs != [] && bs[|bs| - 1] == |text|
            && (forall i :: 0 <= i < |bs| ==> Later(text, start, bs[i]))
            && forall i, j :: 0 <= i < j < |bs| ==> bs[i] < bs[j]
    decreases |text| - start
  {
    var next := NextBreak(m, text, start);
    NextBreakGood(m, text, start);
    if next < |text| {
      BreaksGood(m, text, next);
      var rest := Breaks(m, text, next);
      assert Breaks(m, text, start) == [next] + rest;
    } else {
      assert Breaks(m, text, start) == [next];
    }
  }

  // ---------------------------------------------------------------- the backward machine

  /** getNext: it does not move past the last character. */
  function Step(text: seq<Unit>, pos: nat): (r: nat)
    requires pos <= |text|
    ensures r <= |text|
  {
    if pos < |text| && pos + Count(text, pos) < |text| then pos + Count(text, pos) else pos
  }

  predicate InBackward(m: Machine, s: nat) { s < |m.rules.backward| }

  lemma BackwardStays(r: Rules, state: nat, cat: int)
    requires Good(r) && state < |r.backward| && cat < r.categories
    ensures |r.backward[state]| == r.categories && Next(r.backward, state, cat) < |r.backward|
    ensures state == 1 ==> Next(r.backward, state, cat) != 0
  {
    if cat >= 0 {
      assert r.backward[state][cat] in r.backward[state];
    }
  }

  /** The backward machine at pos, about to read c. */
  function Backward(m: Machine, text: seq<Unit>, pos: nat, c: int, state: nat, cat: int): (r: nat)
    requires Works(m) && pos <= |text| && InBackward(m, state)
    ensures r <= |text|
    decreases pos
  {
    var cat' := Category(m, c);
    BackwardStays(m.rules, state, cat');
    var state' := Next(m.rules.backward, state, cat');
    if pos == 0 then 0
    else if CharBefore(text, pos) == END_CHAR then Before(text, pos)
    else if state' == 0 then
      var p := Step(text, Before(text, pos));
      if cat >= 0 then Step(text, p) else p
    else Backward(m, text, Before(text, pos), CharBefore(text, pos), state', cat')
  }

  /** The position that following and preceding back up to. */
  function SafePosition(m: Machine, text: seq<Unit>, pos: nat): (r: nat)
    requires Works(m) && pos <= |text|
    ensures r <= |text|
  {
    if CharAt(text, pos) == END_CHAR then pos else Backward(m, text, pos, CharAt(text, pos), 1, 0)
  }

  /** From a state other than the start, with q the character boundary read before pos. */
  lemma {:induction false} BackwardBounds(m: Machine, text: seq<Unit>, pos: nat, c: int, state: nat, cat: int, q: nat)
    requires Works(m) && pos < q <= |text| && InBackward(m, state)
    requires Boundary(text, pos) && pos == Before(text, q)
    ensures var r := Backward(m, text, pos, c, state, cat);
            Boundary(text, r) && r <= if Boundary(text, q) then q else q + 1
    decreases pos
  {
    var cat' := Category(m, c);
    BackwardStays(m.rules, state, cat');
    var state' := Next(m.rules.backward, state, cat');
    if pos > 0 && CharBefore(text, pos) != END_CHAR {
      var before := Before(text, pos);
      if state' == 0 {
        assert Step(text, before) == pos;
      } else {
        BackwardBounds(m, text, before, CharBefore(text, pos), state', cat', pos);
      }
    }
  }

  /**
   * Backing up from a boundary does not move forward and stays on boundaries; from inside a pair it
   * may land on the end of that pair.
   */
  lemma SafePositionBounds(m: Machine, text: seq<Unit>, pos: nat)
    requires Works(m) && pos <= |text|
    ensures var r := SafePosition(m, text, pos);
            r <= pos + (if Boundary(text, pos) then 0 else 1) && (r == pos || Boundary(text, r))
  {
    if CharAt(text, pos) != END_CHAR {
      var c := CharAt(text, pos);
      var cat := Category(m, c);
      BackwardStays(m.rules, 1, cat);
      if pos > 0 && CharBefore(text, pos) != END_CHAR {
        BackwardBounds(m, text, Before(text, pos), CharBefore(text, pos), Next(m.rules.backward, 1, cat), cat, pos);
      }
    }
  }

  // ---------------------------------------------------------------- breaks around an offset

  /** The first break after o, iterating from a position. */
  function FirstAfter(m: Machine, text: seq<Unit>, from: nat, o: nat): (r: nat)
    requires Works(m) && from <= |text| && o < |text|
    decreases |text| - from
  {
    if from > o then from
    else
      NextBreakGood(m, text, from);
      FirstAfter(m, text, NextBreak(m, text, from), o)
  }

  /** The last break before o, iterating from a position before it. */
  function LastBefore(m: Machine, text: seq<Unit>, from: nat, o: nat): (r: nat)
    requires Works(m) && from < o <= |text|
    decreases |text| - from
  {
    NextBreakGood(m, text, from);
    if NextBreak(m, text, from) >= o then from else LastBefore(m, text, NextBreak(m, text, from), o)
  }

  lemma {:induction false} FirstAfterGood(m: Machine, text: seq<Unit>, from: nat, o: nat)
    requires Works(m) && from <= |text| && o < |text| && (from <= o || Boundary(text, from))
    ensures o < FirstAfter(m, text, from, o) <= |text| && Boundary(text, FirstAfter(m, text, from, o))
    decreases |text| - from
  {
    if from <= o {
      NextBreakGood(m, text, from);
      FirstAfterGood(m, text, NextBreak(m, text, from), o);
    }
  }

  lemma {:induction false} LastBeforeGood(m: Machine, text: seq<Unit>, from: nat, o: nat)
    requires Works(m) && from < o <= |text| && Boundary(text, from)
    ensures from <= LastBefore(m, text, from, o) < o && Boundary(text, LastBefore(m, text, from, o))
    decreases |text| - from
  {
    NextBreakGood(m, text, from);
    if NextBreak(m, text, from) < o {
      LastBeforeGood(m, text, NextBreak(m, text, from), o);
    }
  }

  // ---------------------------------------------------------------- when these are breaks of the whole text

  /** The start of the text, or one of its breaks. */
  ghost predicate Real(m: Machine, text: seq<Unit>, p: nat)
    requires Works(m)
  {
    p == 0 || p in Breaks(m, text, 0)
  }

  /** From a break on, the breaks are the later ones. */
  lemma {:induction false} LaterBreaks(m: Machine, text: seq<Unit>, start: nat, p: nat)
    requires Works(m) && start < p <= |text| && p in Breaks(m, text, start)
    ensures forall b :: b in Breaks(m, text, start) ==> b <= p || b in Breaks(m, text, p)
    ensures forall b :: b in Breaks(m, text, p) ==> b in Breaks(m, text, start)
    decreases |text| - start
  {
    var next := NextBreak(m, text, start);
    NextBreakGood(m, text, start);
    BreaksStep(m, text, start);
    if p != next {
      if next < |text| {
        BreaksGood(m, text, next);
      }
      LaterBreaks(m, text, next, p);
    }
  }

  lemma BreaksStep(m: Machine, text: seq<Unit>, start: nat)
    requires Works(m) && start < |text|
    ensures NextBreak(m, text, start) <= |text|
    ensures forall b :: b in Breaks(m, text, start) <==> b == NextBreak(m, text, start) || b in Breaks(m, text, NextBreak(m, text, start))
  {
    NextBreakGood(m, text, start);
  }

  /** FirstAfter is the least break after o of those from its base on. */
  lemma {:induction false} FirstAfterLeast(m: Machine, text: seq<Unit>, from: nat, o: nat)
    requires Works(m) && from <= o < |text|
    ensures var r := FirstAfter(m, text, from, o);
            r in Breaks(m, text, from) && o < r && forall b :: b in Breaks(m, text, from) && o < b ==> r <= b
    decreases |text| - from
  {
    var next := NextBreak(m, text, from);
    NextBreakGood(m, text, from);
    BreaksStep(m, text, from);
    if next > o {
      if next < |text| {
        BreaksGood(m, text, next);
      }
    } else {
      FirstAfterLeast(m, text, next, o);
    }
  }

  lemma {:induction false} LastBeforeGreatest(m: Machine, text: seq<Unit>, from: nat, o: nat)
    requires Works(m) && from < o <= |text|
    ensures var r := LastBefore(m, text, from, o);
            (r == from || r in Breaks(m, text, from)) && from <= r < o && forall b :: b in Breaks(m, text, from) && b < o ==> b <= r
    decreases |text| - from
  {
    var next := NextBreak(m, text, from);
    NextBreakGood(m, text, from);
    BreaksStep(m, text, from);
    if next >= o {
      if next < |text| {
        BreaksGood(m, text, next);
      }
    } else {
      LastBeforeGreatest(m, text, next, o);
    }
  }

  /** From a break of the text, or from its start, they are the neighbouring breaks of the whole text. */
  lemma RealNeighbours(m: Machine, text: seq<Unit>, base: nat, o: nat)
    requires Works(m) && Real(m, text, base) && base <= o <= |text|
    ensures o < |text| ==>
              var r := FirstAfter(m, text, base, o);
              r in Breaks(m, text, 0) && o < r && forall b :: b in Breaks(m, text, 0) && o < b ==> r <= b
    ensures base < o ==>
              var r := LastBefore(m, text, base, o);
              Real(m, text, r) && r < o && forall b :: b in Breaks(m, text, 0) && b < o ==> b <= r
  {
    hide Breaks, FirstAfter, LastBefore, NextBreak;
    if base > 0 {
      RealLater(m, text, base);
    }
    if o < |text| {
      FirstAfterLeast(m, text, base, o);
    }
    if base < o {
      LastBeforeGreatest(m, text, base, o);
    }
  }

  lemma RealLater(m: Machine, text: seq<Unit>, base: nat)
    requires Works(m) && 0 < base <= |text| && base in Breaks(m, text, 0)
    ensures forall b :: b in Breaks(m, text, 0) ==> b <= base || b in Breaks(m, text, base)
    ensures forall b :: b in Breaks(m, text, base) ==> b in Breaks(m, text, 0)
  {
    LaterBreaks(m, text, 0, base);
  }
}

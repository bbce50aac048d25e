/**
 * Where the forward machine of internal/engine/breakiter.go breaks, said about the states that the
 * characters from the start lead through, and not about the machine's loop.
 */
module BreakTraces {
  import opened BreakRules
  import opened BreakMachines

  /** One character: from position p and state s to the next ones. */
  ghost predicate Moves(m: Machine, text: seq<Unit>, p: nat, s: nat, p': nat, s': nat)
    requires Works(m)
  {
    var cat := Category(m, CharAt(text, p));
    && p < |text| && CharAt(text, p) != END_CHAR && p' == p + Count(text, p)
    && s != 0 && InTable(m, s) && cat < |m.rules.forward[s]|
    && s' == if cat >= 0 then m.rules.forward[s][cat] else s
  }

  /** The positions ps of successive characters and the states ss before them, up to where the machine stops. */
  ghost predicate Trace(m: Machine, text: seq<Unit>, start: nat, ps: seq<nat>, ss: seq<nat>)
    requires Works(m)
  {
    && |ps| == |ss| > 0 && ps[0] == start && ss[0] == 1
    && (forall i :: 0 < i < |ps| ==> Moves(m, text, ps[i - 1], ss[i - 1], ps[i], ss[i]))
    && (CharAt(text, ps[|ps| - 1]) == END_CHAR || ss[|ss| - 1] == 0)
  }

  predicate Accepts(r: Rules, s: nat) { s in r.accepting }

  /** A look-ahead state that does not accept saves the position. */
  predicate Saves(r: Rules, s: nat) { s in r.lookahead && s !in r.accepting }

  /** v is the position after the last character up to the i-th that led to a saving state, or 0. */
  ghost predicate Saved(r: Rules, ps: seq<nat>, ss: seq<nat>, i: nat, v: nat)
    requires |ps| == |ss| && i < |ss|
  {
    if forall j :: 0 < j <= i ==> !Saves(r, ss[j]) then v == 0
    else exists j :: 0 < j <= i && Saves(r, ss[j]) && v == ps[j] && forall l :: j < l <= i ==> !Saves(r, ss[l])
  }

  /** The break that state i stands for: the saved position when it also looks ahead, or the position there. */
  ghost predicate Marked(r: Rules, ps: seq<nat>, ss: seq<nat>, i: nat, b: nat)
    requires |ps| == |ss| && i < |ss|
  {
    if ss[i] in r.lookahead then Saved(r, ps, ss, i, b) else b == ps[i]
  }

  /** What the last accepting state up to the i-th stands for, or else the end of the first character. */
  ghost predicate LastMarked(m: Machine, text: seq<Unit>, ps: seq<nat>, ss: seq<nat>, i: nat, b: nat)
    requires |ps| == |ss| && i < |ss|
  {
    if forall j :: 0 < j <= i ==> !Accepts(m.rules, ss[j]) then b == ps[0] + Count(text, ps[0])
    else exists j :: 0 < j <= i && Accepts(m.rules, ss[j]) && Marked(m.rules, ps, ss, j, b) && forall l :: j < l <= i ==> !Accepts(m.rules, ss[l])
  }

  /** At the end of the text, a position saved there comes first. */
  ghost predicate BreakOf(m: Machine, text: seq<Unit>, ps: seq<nat>, ss: seq<nat>, b: nat)
    requires |ps| == |ss| > 0
  {
    var n := |ps| - 1;
    if CharAt(text, ps[n]) == END_CHAR && Saved(m.rules, ps, ss, n, |text|) then b == |text| else LastMarked(m, text, ps, ss, n, b)
  }

  lemma {:induction false} SavedOnce(r: Rules, ps: seq<nat>, ss: seq<nat>, i: nat, v: nat, w: nat)
    requires |ps| == |ss| && i < |ss| && Saved(r, ps, ss, i, v) && Saved(r, ps, ss, i, w)
    ensures v == w
  {
  }

  lemma SavedNext(r: Rules, ps: seq<nat>, ss: seq<nat>, i: nat, v: nat)
    requires |ps| == |ss| && 0 < i < |ss| && Saved(r, ps, ss, i - 1, v)
    ensures Saved(r, ps, ss, i, if Saves(r, ss[i]) then ps[i] else v)
  {
  }

  lemma MarkedNext(m: Machine, text: seq<Unit>, ps: seq<nat>, ss: seq<nat>, i: nat, b: nat, v: nat)
    requires |ps| == |ss| && 0 < i < |ss| && LastMarked(m, text, ps, ss, i - 1, b) && Saved(m.rules, ps, ss, i, v)
    ensures LastMarked(m, text, ps, ss, i, if !Accepts(m.rules, ss[i]) then b else if ss[i] in m.rules.lookahead then v else ps[i])
  {
    if Accepts(m.rules, ss[i]) {
      assert Marked(m.rules, ps, ss, i, if ss[i] in m.rules.lookahead then v else ps[i]);
    }
  }

  /** The machine's marks before the character at ps[i]. */
  ghost predicate MarksAt(m: Machine, text: seq<Unit>, ps: seq<nat>, ss: seq<nat>, i: nat, k: Marks)
    requires |ps| == |ss| && i < |ss|
  {
    k.state == ss[i] && Saved(m.rules, ps, ss, i, k.lookahead) && LastMarked(m, text, ps, ss, i, k.result)
  }

  lemma MarksNext(m: Machine, text: seq<Unit>, ps: seq<nat>, ss: seq<nat>, i: nat, k: Marks)
    requires Works(m) && |ps| == |ss| && 0 < i < |ss| && MarksAt(m, text, ps, ss, i - 1, k)
    requires Moves(m, text, ps[i - 1], ss[i - 1], ps[i], ss[i])
    ensures InTable(m, k.state) && MarksAt(m, text, ps, ss, i, Feed(m, text, ps[i - 1], k))
  {
    hide Saved, LastMarked;
    SavedNext(m.rules, ps, ss, i, k.lookahead);
    MarkedNext(m, text, ps, ss, i, k.result, if Saves(m.rules, ss[i]) then ps[i] else k.lookahead);
  }

  lemma {:induction false} Follow(m: Machine, text: seq<Unit>, start: nat, ps: seq<nat>, ss: seq<nat>, i: nat, k: Marks)
    requires Works(m) && Trace(m, text, start, ps, ss) && i < |ps| && ps[i] < |text| && InTable(m, ss[i])
    requires MarksAt(m, text, ps, ss, i, k)
    ensures BreakOf(m, text, ps, ss, Forward(m, text, ps[i], k))
    decreases |ps| - i
  {
    hide Saved, LastMarked;
    if i == |ps| - 1 {
      AtLast(m, text, ps, ss, k);
    } else {
      var k' := Feed(m, text, ps[i], k);
      assert Moves(m, text, ps[i + 1 - 1], ss[i + 1 - 1], ps[i + 1], ss[i + 1]);
      MarksNext(m, text, ps, ss, i + 1, k);
      if ps[i + 1] < |text| {
        Follow(m, text, start, ps, ss, i + 1, k');
      } else {
        if i + 1 < |ps| - 1 {
          InText(m, text, start, ps, ss, i + 1);
        }
        AtLast(m, text, ps, ss, k');
      }
    }
  }

  lemma InText(m: Machine, text: seq<Unit>, start: nat, ps: seq<nat>, ss: seq<nat>, i: nat)
    requires Works(m) && Trace(m, text, start, ps, ss) && i < |ps| - 1
    ensures ps[i] < |text|
  {
    assert Moves(m, text, ps[i + 1 - 1], ss[i + 1 - 1], ps[i + 1], ss[i + 1]);
  }

  lemma AtLast(m: Machine, text: seq<Unit>, ps: seq<nat>, ss: seq<nat>, k: Marks)
    requires |ps| == |ss| > 0 && MarksAt(m, text, ps, ss, |ps| - 1, k)
    ensures BreakOf(m, text, ps, ss, if CharAt(text, ps[|ps| - 1]) == END_CHAR then AtEnd(text, k) else k.result)
  {
    if Saved(m.rules, ps, ss, |ps| - 1, |text|) {
      SavedOnce(m.rules, ps, ss, |ps| - 1, |text|, k.lookahead);
    }
  }

  /**
   * The break is the end of the last character that led to an accepting state; when that state also
   * looks ahead, it is the end of the last earlier character that led to a look-ahead state which does
   * not accept; and at the end of the text it is the end when that is the position saved last.
   */
  lemma NextBreakExact(m: Machine, text: seq<Unit>, start: nat, ps: seq<nat>, ss: seq<nat>)
    requires Works(m) && start < |text| && Trace(m, text, start, ps, ss)
    ensures BreakOf(m, text, ps, ss, NextBreak(m, text, start))
  {
    Follow(m, text, start, ps, ss, 0, Marks(1, 0, IndexAfter(text, start)));
  }

  /** Every start has such positions and states. */
  lemma TraceExists(m: Machine, text: seq<Unit>, start: nat) returns (ps: seq<nat>, ss: seq<nat>)
    requires Works(m) && start < |text|
    ensures Trace(m, text, start, ps, ss)
  {
    ps, ss := [start], [1];
    while CharAt(text, ps[|ps| - 1]) != END_CHAR && ss[|ss| - 1] != 0
      invariant |ps| == |ss| > 0 && ps[0] == start && ss[0] == 1
      invariant ps[|ps| - 1] <= |text| && InTable(m, ss[|ss| - 1])
      invariant forall i :: 0 < i < |ps| ==> Moves(m, text, ps[i - 1], ss[i - 1], ps[i], ss[i])
      decreases |text| - ps[|ps| - 1]
    {
      var p, s := ps[|ps| - 1], ss[|ss| - 1];
      var cat := Category(m, CharAt(text, p));
      ForwardStays(m.rules, s, cat);
      ps, ss := ps + [p + Count(text, p)], ss + [if cat >= 0 then m.rules.forward[s][cat] else s];
    }
  }

  /** The states determine the break. */
  lemma BreakOnce(m: Machine, text: seq<Unit>, ps: seq<nat>, ss: seq<nat>, b: nat, c: nat)
    requires |ps| == |ss| > 0 && BreakOf(m, text, ps, ss, b) && BreakOf(m, text, ps, ss, c)
    ensures b == c
  {
    var n := |ps| - 1;
    if !(CharAt(text, ps[n]) == END_CHAR && Saved(m.rules, ps, ss, n, |text|)) && !(forall j :: 0 < j <= n ==> !Accepts(m.rules, ss[j])) {
      var j :| 0 < j <= n && Accepts(m.rules, ss[j]) && Marked(m.rules, ps, ss, j, b) && forall l :: j < l <= n ==> !Accepts(m.rules, ss[l]);
      var j' :| 0 < j' <= n && Accepts(m.rules, ss[j']) && Marked(m.rules, ps, ss, j', c) && forall l :: j' < l <= n ==> !Accepts(m.rules, ss[l]);
      assert j == j';
      if ss[j] in m.rules.lookahead {
        SavedOnce(m.rules, ps, ss, j, b, c);
      }
    }
  }

  // ---------------------------------------------------------------- the backward machine

  /** One character back: c was read at q in state s; at the start of the text nothing is left. */
  ghost predicate MovesBack(m: Machine, text: seq<Unit>, q: nat, c: int, s: nat, q': nat, c': int, s': nat)
    requires Works(m)
  {
    var cat := Category(m, c);
    && q <= |text| && c != END_CHAR && s != 0 && InBackward(m, s) && cat < |m.rules.backward[s]|
    && s' == (if cat >= 0 then m.rules.backward[s][cat] else s)
    && q' == (if q == 0 then 0 else Before(text, q)) && c' == if q == 0 then END_CHAR else CharBefore(text, q)
  }

  /** The positions, characters and states from pos backwards, up to where the machine stops. */
  ghost predicate BackTrace(m: Machine, text: seq<Unit>, pos: nat, qs: seq<nat>, cs: seq<int>, ss: seq<nat>)
    requires Works(m)
  {
    && |qs| == |cs| == |ss| > 0 && qs[0] == pos && cs[0] == CharAt(text, pos) && ss[0] == 1
    && (forall i :: 0 < i < |qs| ==> MovesBack(m, text, qs[i - 1], cs[i - 1], ss[i - 1], qs[i], cs[i], ss[i]))
    && (cs[|cs| - 1] == END_CHAR || ss[|ss| - 1] == 0)
  }

  /**
   * Where the text ends backwards, the position there. Otherwise the end of the character that led to
   * state 0, one and then another character on, or its start when the one read before it is skipped.
   */
  function StopsAt(m: Machine, text: seq<Unit>, qs: seq<nat>, cs: seq<int>): nat
    requires Works(m) && |qs| == |cs| > 0 && qs[|qs| - 1] <= |text|
  {
    var n := |qs| - 1;
    if cs[n] == END_CHAR then qs[n]
    else if n >= 2 && Category(m, cs[n - 2]) < 0 then Step(text, qs[n])
    else Step(text, Step(text, qs[n]))
  }

  lemma {:induction false} BackInside(m: Machine, text: seq<Unit>, pos: nat, qs: seq<nat>, cs: seq<int>, ss: seq<nat>, i: nat)
    requires Works(m) && pos <= |text| && BackTrace(m, text, pos, qs, cs, ss) && i < |qs|
    ensures qs[i] <= |text|
  {
    if i > 0 {
      BackInside(m, text, pos, qs, cs, ss, i - 1);
      assert MovesBack(m, text, qs[i - 1], cs[i - 1], ss[i - 1], qs[i], cs[i], ss[i]);
    }
  }

  lemma {:induction false} FollowBack(m: Machine, text: seq<Unit>, pos: nat, qs: seq<nat>, cs: seq<int>, ss: seq<nat>, i: nat)
    requires Works(m) && pos <= |text| && BackTrace(m, text, pos, qs, cs, ss) && i < |qs| - 1
    requires qs[|qs| - 1] <= |text| && qs[i] <= |text| && InBackward(m, ss[i])
    ensures Backward(m, text, qs[i], cs[i], ss[i], if i == 0 then 0 else Category(m, cs[i - 1])) == StopsAt(m, text, qs, cs)
    decreases |qs| - i
  {
    assert MovesBack(m, text, qs[i + 1 - 1], cs[i + 1 - 1], ss[i + 1 - 1], qs[i + 1], cs[i + 1], ss[i + 1]);
    BackwardStays(m.rules, ss[i], Category(m, cs[i]));
    if i + 1 < |qs| - 1 {
      GoesOnBack(m, text, pos, qs, cs, ss, i + 1);
      FollowBack(m, text, pos, qs, cs, ss, i + 1);
    }
  }

  lemma GoesOnBack(m: Machine, text: seq<Unit>, pos: nat, qs: seq<nat>, cs: seq<int>, ss: seq<nat>, i: nat)
    requires Works(m) && BackTrace(m, text, pos, qs, cs, ss) && i < |qs| - 1
    ensures cs[i] != END_CHAR && ss[i] != 0
  {
    assert MovesBack(m, text, qs[i + 1 - 1], cs[i + 1 - 1], ss[i + 1 - 1], qs[i + 1], cs[i + 1], ss[i + 1]);
  }

  /** The position that the backward machine backs up to, said about the states. */
  lemma SafePositionExact(m: Machine, text: seq<Unit>, pos: nat, qs: seq<nat>, cs: seq<int>, ss: seq<nat>)
    requires Works(m) && pos <= |text| && BackTrace(m, text, pos, qs, cs, ss)
    ensures qs[|qs| - 1] <= |text| && SafePosition(m, text, pos) == StopsAt(m, text, qs, cs)
  {
    BackInside(m, text, pos, qs, cs, ss, |qs| - 1);
    if |qs| > 1 {
      GoesOnBack(m, text, pos, qs, cs, ss, 0);
      FollowBack(m, text, pos, qs, cs, ss, 0);
    }
  }

  /** Every position has such states. */
  lemma BackTraceExists(m: Machine, text: seq<Unit>, pos: nat) returns (qs: seq<nat>, cs: seq<int>, ss: seq<nat>)
    requires Works(m) && pos <= |text|
    ensures BackTrace(m, text, pos, qs, cs, ss)
  {
    qs, cs, ss := [pos], [CharAt(text, pos)], [1];
    while cs[|cs| - 1] != END_CHAR && ss[|ss| - 1] != 0
      invariant |qs| == |cs| == |ss| > 0 && qs[0] == pos && cs[0] == CharAt(text, pos) && ss[0] == 1
      invariant qs[|qs| - 1] <= |text| && InBackward(m, ss[|ss| - 1])
      invariant forall i :: 0 < i < |qs| ==> MovesBack(m, text, qs[i - 1], cs[i - 1], ss[i - 1], qs[i], cs[i], ss[i])
      decreases qs[|qs| - 1], if cs[|cs| - 1] == END_CHAR then 0 else 1
    {
      var q, c, s := qs[|qs| - 1], cs[|cs| - 1], ss[|ss| - 1];
      var cat := Category(m, c);
      BackwardStays(m.rules, s, cat);
      qs := qs + [if q == 0 then 0 else Before(text, q)];
      cs := cs + [if q == 0 then END_CHAR else CharBefore(text, q)];
      ss := ss + [if cat >= 0 then m.rules.backward[s][cat] else s];
    }
  }
}

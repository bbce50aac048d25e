/**
 * ruleBreakIterator of internal/engine/breakiter.go: a position and the last known break over a
 * text, moved by the forward and backward machines.
 */
module BreakIterator {
  import opened BreakMachines

  const DONE := -1

  class Iterator {
    const m: Machine
    var text: seq<Unit>
    var pos: nat
    var cached: int   // the last break that was computed, or DONE

    ghost predicate Valid()
      reads this
    {
      Works(m) && pos <= |text| && -1 <= cached <= |text| && (cached >= 0 ==> Boundary(text, cached))
    }

    constructor (m: Machine)
      requires Works(m)
      ensures Valid() && this.m == m && text == []
    {
      this.m := m;
      text, pos, cached := [], 0, DONE;
    }

    method SetText(t: seq<Unit>)
      requires Valid()
      modifies this
      ensures Valid() && text == t && pos == 0 && cached == DONE
    {
      text, pos, cached := t, 0, DONE;
    }

    method First() returns (r: int)
      requires Valid()
      modifies this`pos
      ensures Valid() && r == pos == 0
    {
      pos := 0;
      return 0;
    }

    method Last() returns (r: int)
      requires Valid()
      modifies this`pos
      ensures Valid() && r == pos == |text|
    {
      pos := |text|;
      return pos;
    }

    method GetNext() returns (c: int)
      requires Valid()
      modifies this`pos
      ensures Valid() && pos == Step(text, old(pos))
      ensures c == if pos == old(pos) then END_CHAR else CharAt(text, pos)
    {
      var index := pos;
      if index == |text| {
        return END_CHAR;
      }
      index := index + Count(text, pos);
      if index >= |text| {
        return END_CHAR;
      }
      pos := index;
      return CharAt(text, pos);
    }

    method GetPrevious() returns (c: int)
      requires Valid()
      modifies this`pos
      ensures Valid()
      ensures if old(pos) == 0 then pos == 0 && c == END_CHAR
              else pos == Before(text, old(pos)) && c == CharBefore(text, old(pos))
    {
      if pos == 0 {
        return END_CHAR;
      }
      pos := pos - 1;
      var c2 := text[pos];
      if Low(c2) && pos > 0 {
        pos := pos - 1;
        var c1 := text[pos];
        if High(c1) {
          return CodePoint(c1, c2);
        }
        pos := pos + 1;
      }
      return c2;
    }

    /** The next break, which is also where the iterator is then. */
    method HandleNext() returns (r: int)
      requires Valid()
      modifies this`pos
      ensures Valid()
      ensures if old(pos) == |text| then r == DONE && pos == old(pos)
              else r == pos == NextBreak(m, text, old(pos)) && old(pos) < pos && Boundary(text, pos)
    {
      if pos == |text| {
        return DONE;
      }
      ghost var start := pos;
      NextBreakGood(m, text, start);
      var br := m.rules;
      var result := IndexAfter(text, pos);
      var lookahead: nat := 0;
      var state: nat := 1;
      var c := CharAt(text, pos);
      while c != END_CHAR && state != 0
        invariant Valid() && pos < |text| && state < |br.forward|
        invariant c == END_CHAR || c == CharAt(text, pos)
        invariant NextBreak(m, text, start) == ForwardAt(m, text, pos, c, Marks(state, lookahead, result))
        decreases |text| - pos, if c == END_CHAR then 0 else 1
      {
        ghost var k := Marks(state, lookahead, result);
        var cat := Category(m, c);
        ForwardStays(br, state, cat);
        if cat >= 0 {
          state := br.forward[state][cat];
        }
        if state in br.lookahead && state in br.accepting {
          result := lookahead;
        } else if state in br.lookahead {
          lookahead := IndexAfter(text, pos);
        } else if state in br.accepting {
          result := IndexAfter(text, pos);
        }
        assert Feed(m, text, pos, k) == Marks(state, lookahead, result);
        ghost var at := pos;
        c := GetNext();
        ForwardStep(m, text, at, k, c);
      }
      if c == END_CHAR && lookahead == |text| {
        result := lookahead;
      }
      pos := result;
      return result;
    }

    method HandlePrevious() returns (r: int)
      requires Valid()
      modifies this`pos
      ensures Valid() && r == pos == SafePosition(m, text, old(pos))
    {
      ghost var start := pos;
      var br := m.rules;
      var state: nat, cat, lastCat := 1, 0, 0;
      var c := CharAt(text, pos);
      while c != END_CHAR && state != 0
        invariant Valid() && state < |br.backward|
        invariant c != END_CHAR && state != 0 ==> SafePosition(m, text, start) == Backward(m, text, pos, c, state, cat)
        invariant c == END_CHAR ==> SafePosition(m, text, start) == pos
        invariant c != END_CHAR && state == 0 ==>
                    SafePosition(m, text, start) == if lastCat >= 0 then Step(text, Step(text, pos)) else Step(text, pos)
        decreases pos, if c == END_CHAR then 0 else 1
      {
        lastCat := cat;
        cat := Category(m, c);
        BackwardStays(br, state, cat);
        if cat >= 0 {
          state := br.backward[state][cat];
        }
        c := GetPrevious();
      }
      if c != END_CHAR {
        var _ := GetNext();
        if lastCat >= 0 {
          var _ := GetNext();
        }
      }
      return pos;
    }

    method Previous() returns (r: int)
      requires Valid()
      modifies this
      ensures Valid() && text == old(text)
      ensures if old(pos) == 0 then r == DONE && pos == 0 && cached == old(cached)
              else
                && 0 <= r < old(pos) && Boundary(text, r) && r == pos == cached
                && r == LastBefore(m, text, PrecedingBase(m, text, old(pos), old(cached)), old(pos))
    {
      if pos == 0 {
        return DONE;
      }
      var start := pos;
      var lastResult := cached;
      PrecedingBaseGood(m, text, start, cached);
      if lastResult >= start || lastResult <= DONE {
        var _ := GetPrevious();
        lastResult := HandlePrevious();
      } else {
        pos := lastResult;
      }
      ghost var base := lastResult;
      LastBeforeGood(m, text, base, start);
      var result := lastResult;
      while result != DONE && result < start
        invariant Valid() && text == old(text) && 0 <= lastResult < start
        invariant result == DONE || (result == pos && lastResult <= result)
        invariant result == lastResult || (result == NextBreak(m, text, lastResult) && lastResult < result)
        invariant result < start ==> LastBefore(m, text, base, start) == LastBefore(m, text, result, start)
        invariant result >= start ==> LastBefore(m, text, base, start) == lastResult
        decreases |text| - result
      {
        lastResult := result;
        result := HandleNext();
      }
      pos := lastResult;
      cached := lastResult;
      return lastResult;
    }

    /** The last break before the offset. */
    method Preceding(offset: nat) returns (r: int)
      requires Valid() && offset <= |text|
      modifies this
      ensures Valid() && text == old(text)
      ensures if offset == 0 then r == DONE
              else
                && 0 <= r < offset && Boundary(text, r) && r == pos == cached
                && r == LastBefore(m, text, PrecedingBase(m, text, offset, old(cached)), offset)
    {
      pos := offset;
      r := Previous();
    }

    /** The first break after the offset. */
    method Following(offset: nat) returns (r: int)
      requires Valid() && offset <= |text|
      modifies this
      ensures Valid() && text == old(text)
      ensures if offset == |text| then r == DONE
              else
                && offset < r <= |text| && Boundary(text, r) && r == pos
                && r == FirstAfter(m, text, FollowingBase(m, text, offset, old(cached)), offset)
      ensures r == cached
    {
      pos := offset;
      if offset == 0 {
        cached := HandleNext();
        return cached;
      }
      var result := cached;
      FollowingBaseGood(m, text, offset, cached);
      if result >= offset || result <= DONE {
        result := HandlePrevious();
      } else {
        pos := result;
      }
      ghost var base := result;
      if offset < |text| {
        FirstAfterGood(m, text, base, offset);
      }
      while result != DONE && result <= offset
        invariant Valid() && text == old(text) && (result == DONE || result == pos)
        invariant result == DONE ==> offset == |text|
        invariant result > offset ==> offset < |text|
        invariant offset < |text| ==> 0 <= result <= |text| && FirstAfter(m, text, base, offset) == FirstAfter(m, text, result, offset)
        decreases if result == DONE then 0 else |text| - result + 1
      {
        result := HandleNext();
      }
      cached := result;
      return result;
    }
  }

  /** Where preceding starts to iterate: the cached break when it is before the offset, or a safe position. */
  function PrecedingBase(m: Machine, text: seq<Unit>, offset: nat, cached: int): (base: nat)
    requires Works(m) && 0 < offset <= |text|
    ensures base < offset
  {
    SafePositionBounds(m, text, Before(text, offset));
    if 0 <= cached < offset then cached else SafePosition(m, text, Before(text, offset))
  }

  lemma PrecedingBaseGood(m: Machine, text: seq<Unit>, offset: nat, cached: int)
    requires Works(m) && 0 < offset <= |text| && (cached >= 0 ==> Boundary(text, cached))
    ensures Boundary(text, PrecedingBase(m, text, offset, cached))
  {
    SafePositionBounds(m, text, Before(text, offset));
  }

  function FollowingBase(m: Machine, text: seq<Unit>, offset: nat, cached: int): (base: nat)
    requires Works(m) && offset <= |text|
  {
    if offset == 0 then 0 else if 0 <= cached < offset then cached else SafePosition(m, text, offset)
  }

  lemma FollowingBaseGood(m: Machine, text: seq<Unit>, offset: nat, cached: int)
    requires Works(m) && offset <= |text|
    ensures var base := FollowingBase(m, text, offset, cached);
            base <= |text| && (base <= offset || (offset < |text| && Boundary(text, base)))
  {
    SafePositionBounds(m, text, offset);
  }
}

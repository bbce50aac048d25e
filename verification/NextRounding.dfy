/**
 * The key after a key, nextZoned in internal/engine/aggs_dates.go, for calendar units and fixed
 * intervals in zones whose offsets change, and which roundings fillDateHistogram can fill with it.
 */
module NextRounding {
  import opened Clocks
  import opened Zones
  import opened Rounding
  import GapFilling

  // ---------------------------------------------------------------- the first time that reaches a reading

  ghost predicate FirstReach(off: Clock, m: int, e: int) {
    m <= Wall(off, e) && forall x :: x < e ==> Wall(off, x) < m
  }

  /** The clock shows a reading for the first time, or jumps over it, when it first reaches it. */
  lemma DayStartIsReach(off: Clock, m: int, r: int)
    requires Regular(off) && DayStart(off, m, r)
    ensures FirstReach(off, m, r)
  {
    forall x | x < r ensures Wall(off, x) < m {
      if m <= Wall(off, x) {
        NotReachedBefore(off, m, r, x);
      }
    }
  }

  lemma NotReachedBefore(off: Clock, m: int, r: int, x: int)
    requires Regular(off) && DayStart(off, m, r) && m <= Wall(off, x)
    ensures r <= x
  {
    var t := Reached(off, m, x);
    if Gap(off, t, m) {
      if y :| Wall(off, y) == m {
        GapExcludes(off, t, m, y);
      } else {
        GapUnique(off, t, r, m);
      }
    }
  }

  lemma ReachIsDayStart(off: Clock, m: int, e: int)
    requires Regular(off) && FirstReach(off, m, e)
    ensures DayStart(off, m, e)
    ensures Wall(off, e) == m || Gap(off, e, m)
  {
    assert Wall(off, e - 1) < m;
    if y :| Wall(off, y) == m {
      if Wall(off, e) != m {
        GapExcludes(off, e, m, y);
      }
    }
  }

  lemma ReachUnique(off: Clock, m: int, d: int, e: int)
    requires FirstReach(off, m, d) && FirstReach(off, m, e)
    ensures d == e
  {
  }

  lemma {:induction false} ReachFrom(off: Clock, m: int, lo: int, hi: int) returns (e: int)
    requires lo <= hi && m <= Wall(off, hi) && forall x :: x < lo ==> Wall(off, x) < m
    ensures lo <= e <= hi && FirstReach(off, m, e)
    decreases hi - lo
  {
    if m <= Wall(off, lo) {
      e := lo;
    } else {
      e := ReachFrom(off, m, lo + 1, hi);
    }
  }

  lemma ReachExists(off: Clock, m: int, x: int) returns (e: int)
    requires Bounded(off) && m <= Wall(off, x)
    ensures e <= x && FirstReach(off, m, e)
  {
    e := ReachFrom(off, m, m - MAX_OFFSET - 1, x);
  }

  // ---------------------------------------------------------------- days and longer

  /** nextZoned for units of a day or more. */
  ghost predicate NextDay(off: Clock, unit: Unit, utc: int, n: int)
    requires unit.Day? || unit.Week? || unit.Coarse?
  {
    DayStart(off, NextMidnight(TruncateLocal(Wall(off, utc), unit), unit), n)
  }

  method NextZonedDay(z: Zone, ghost off: Clock, unit: Unit, utc: int) returns (n: int)
    requires Keeps(z, off) && Regular(off) && unit.Valid() && -LIMIT <= utc <= LIMIT
    requires unit.Day? || unit.Week? || unit.Coarse?
    ensures NextDay(off, unit, utc, n)
  {
    assert OffsetAt(z, utc) == off(utc);
    var local := TruncateLocal(utc + OffsetAt(z, utc), unit);
    TruncateInRange(unit, Wall(off, utc));
    ghost var f := x => TruncateLocal(x, unit);
    NextIsNext(unit, f, Wall(off, utc));
    n := FirstTimeOnDay(z, off, NextMidnight(local, unit));
  }

  /** The next midnight is the next local time that truncation keeps. */
  lemma NextIsNext(unit: Unit, f: int -> int, local: int)
    requires unit.Valid() && (unit.Day? || unit.Week? || unit.Coarse?) && forall x :: f(x) == TruncateLocal(x, unit)
    ensures IsNext(f, f(local), NextMidnight(f(local), unit))
  {
    TruncateIsFloor(unit, f);
    var m := f(local);
    assert f(f(local)) == m;
    match unit
    case Day =>
      FloorMillisIsFloor(local, DAY);
      StepIsNext(DAY, 0, f, m);
    case Week =>
      WeekIsShiftedFloor(local);
      FloorMillisIsFloor(local + 3 * DAY, 7 * DAY);
      forall x ensures f(x) == FloorMillis(x + 3 * DAY, 7 * DAY) - 3 * DAY {
        WeekIsShiftedFloor(x);
      }
      StepIsNext(7 * DAY, 3 * DAY, f, m);
    case Coarse(floor, follow) =>
      assert floor(m) == m && IsNext(floor, m, follow(m));
  }

  lemma StepIsNext(step: int, shift: int, f: int -> int, m: int)
    requires 0 < step <= LIMIT && (forall x :: f(x) == FloorMillis(x + shift, step) - shift) && Multiple(m + shift, step)
    ensures IsNext(f, m, m + step)
  {
    var k: int :| m + shift == k * step;
    assert m + step + shift == (k + 1) * step;
    FloorUnique(m + step + shift, step, m + step + shift);
    forall j | m < j < m + step ensures f(j) != j {
      FloorUnique(j + shift, step, m + shift);
    }
  }

  /** From the start of a day to the start of the next one, in every zone. */
  lemma NextDayIsLeast(off: Clock, unit: Unit, k: int, n: int)
    requires Regular(off) && unit.Valid() && (unit.Day? || unit.Week? || unit.Coarse?)
    requires RoundsToDay(off, unit, k, k) && NextDay(off, unit, k, n)
    ensures k < n && RoundsToDay(off, unit, n, n)
    ensures forall j :: k < j < n ==> !RoundsToDay(off, unit, j, j)
  {
    var f := x => TruncateLocal(x, unit);
    TruncateIsFloor(unit, f);
    NextIsNext(unit, f, Wall(off, k));
    var m := f(Wall(off, k));
    var next := NextMidnight(m, unit);
    DayStartIsReach(off, m, k);
    DayStartIsReach(off, next, n);
    KeptBelow(f, m, next, Wall(off, k));
    StartIsKey(off, unit, f, next, n);
    forall j | k < j < n ensures !RoundsToDay(off, unit, j, j) {
      if RoundsToDay(off, unit, j, j) {
        EarlierStart(off, unit, f, m, next, k, j);
      }
    }
  }

  /** A local time truncated to m lies below the next kept one. */
  lemma KeptBelow(f: int -> int, m: int, next: int, local: int)
    requires FloorLike(f) && IsNext(f, m, next) && f(local) == m
    ensures local < next
  {
    assert next <= local ==> f(next) <= f(local);
  }

  /** Where the clock first reaches a kept local time, it rounds to that very instant. */
  lemma StartIsKey(off: Clock, unit: Unit, f: int -> int, m: int, n: int)
    requires Regular(off) && unit.Valid() && FloorLike(f) && (forall x :: f(x) == TruncateLocal(x, unit))
    requires f(m) == m && FirstReach(off, m, n)
    ensures RoundsToDay(off, unit, n, n)
  {
    var day := f(Wall(off, n));
    assert f(m) <= f(Wall(off, n)) <= Wall(off, n);
    assert FirstReach(off, day, n);
    ReachIsDayStart(off, day, n);
  }

  /** The start of a day that is later than k is not before the next midnight. */
  lemma EarlierStart(off: Clock, unit: Unit, f: int -> int, m: int, next: int, k: int, j: int)
    requires Regular(off) && FloorLike(f) && (forall x :: f(x) == TruncateLocal(x, unit)) && IsNext(f, m, next)
    requires FirstReach(off, m, k) && RoundsToDay(off, unit, j, j) && k < j
    ensures next <= Wall(off, j)
  {
    var day := f(Wall(off, j));
    DayStartIsReach(off, day, j);
    assert f(f(Wall(off, j))) == day;
    assert Wall(off, k) < day;
    assert m < day;
    assert day < next ==> f(day) != day;
  }

  // ---------------------------------------------------------------- fixed intervals

  /** ZonedDateTime.ofLocal: in a gap, the local time read with the offset before it. */
  ghost predicate OfLocal(off: Clock, local: int, n: int) {
    if exists x :: Wall(off, x) == local then DayStart(off, local, n)
    else exists t :: ReadBefore(off, local, t, n)
  }

  ghost predicate ReadBefore(off: Clock, local: int, t: int, n: int) {
    Gap(off, t, local) && n == local - off(t - 1)
  }

  /** zonedOfLocal */
  method ZonedOfLocal(z: Zone, ghost off: Clock, local: int) returns (n: int)
    requires Keeps(z, off) && Regular(off) && -2 * LIMIT <= local <= 2 * LIMIT + MAX_OFFSET
    ensures OfLocal(off, local, n)
  {
    var offsets := ValidOffsets(z, off, local);
    if |offsets| > 0 {
      n := local - offsets[0];
      assert offsets[0] in offsets;
      forall x | Wall(off, x) == local ensures n <= x {
        assert off(x) in offsets && x == local - off(x);
      }
      return;
    }
    ghost var u := Reached(off, local, local + MAX_OFFSET);
    assert Gap(off, u, local);
    var t := GapTransition(z, off, local);
    var p := PeriodAt(z, off, t - 1);
    n := local - p.offset;
    assert off(t - 1) == p.offset;
    assert ReadBefore(off, local, t, n);
    forall x ensures Wall(off, x) != local {
      GapExcludes(off, u, local, x);
    }
  }

  method NextZonedInterval(z: Zone, ghost off: Clock, interval: int, utc: int) returns (n: int)
    requires Keeps(z, off) && Regular(off) && 0 < interval <= LIMIT && -LIMIT <= utc <= LIMIT
    ensures OfLocal(off, Wall(off, utc) + interval, n)
  {
    assert OffsetAt(z, utc) == off(utc);
    n := ZonedOfLocal(z, off, utc + interval + OffsetAt(z, utc));
  }

  lemma OfLocalIsReach(off: Clock, local: int, n: int, e: int)
    requires Regular(off) && OfLocal(off, local, n) && FirstReach(off, local, e)
    ensures if Wall(off, e) == local then n == e
            else Gap(off, e, local) && e <= n && (n == e <==> Wall(off, e - 1) + 1 == local)
  {
    ReachIsDayStart(off, local, e);
    if Wall(off, e) == local {
      DayStartUnique(off, local, n, e);
    } else {
      forall x ensures Wall(off, x) != local {
        GapExcludes(off, e, local, x);
      }
      var t :| ReadBefore(off, local, t, n);
      GapUnique(off, t, e, local);
    }
  }

  /** The instants that rounding to an interval keeps. */
  lemma IntervalKey(off: Clock, step: int, k: int)
    requires Regular(off) && step > 0
    ensures RoundsToInterval(off, step, k, k) <==> Boundary(off, step, k)
  {
    var m := FloorMillis(Wall(off, k), step);
    FloorMillisIsFloor(Wall(off, k), step);
    if Boundary(off, step, k) && Multiple(Wall(off, k), step) {
      FloorUnique(Wall(off, k), step, Wall(off, k));
      ShownIsNotSkipped(off, m, k);
    } else if Boundary(off, step, k) {
      JumpsOverFloor(off, step, k);
    }
  }

  /** A boundary that shows no multiple jumps over the one below its local time. */
  lemma JumpsOverFloor(off: Clock, step: int, k: int)
    requires step > 0 && Boundary(off, step, k) && !Multiple(Wall(off, k), step)
    ensures Gap(off, k, FloorMillis(Wall(off, k), step))
  {
    var m := FloorMillis(Wall(off, k), step);
    FloorMillisIsFloor(Wall(off, k), step);
    var j :| Multiple(j, step) && Gap(off, k, j);
    if m < j {
      MultiplesApart(m, j, step);
    }
  }

  ghost predicate NextBoundary(off: Clock, step: int, k: int, n: int)
    requires step > 0
  {
    k < n && Boundary(off, step, n) && NoBoundary(off, step, k, n - 1)
  }

  /**
   * When a key shows a multiple: the clock shows the next multiple or starts to jump there, does so
   * after the key for the first time, and has not gone back to the multiple in between. When it does
   * not: the clock jumps over the next multiple and lands one interval after the key.
   */
  ghost predicate StepsOn(off: Clock, step: int, k: int)
    requires step > 0
  {
    var m := FloorMillis(Wall(off, k), step);
    var next, local := m + step, Wall(off, k) + step;
    if Wall(off, k) == m then exists e :: ShowsNext(off, m, next, k, e) else exists e :: LandsOn(off, next, local, e)
  }

  ghost predicate ShowsNext(off: Clock, m: int, next: int, k: int, e: int) {
    && k < e && FirstReach(off, next, e) && (Wall(off, e) == next || Wall(off, e - 1) + 1 == next)
    && forall x :: k < x < e ==> m < Wall(off, x)
  }

  ghost predicate LandsOn(off: Clock, next: int, local: int, e: int) {
    Gap(off, e, next) && Wall(off, e) == local
  }

  lemma NextMultiple(m: int, step: int)
    requires step > 0 && Multiple(m, step)
    ensures Multiple(m + step, step)
  {
    var k: int :| m == k * step;
    assert m + step == (k + 1) * step;
  }

  /** nextZoned of a key is the least key after it exactly when the clock steps on from it. */
  lemma IntervalNextExactly(off: Clock, step: int, k: int, n: int)
    requires Regular(off) && step > 0 && Boundary(off, step, k) && OfLocal(off, Wall(off, k) + step, n)
    ensures NextBoundary(off, step, k, n) <==> StepsOn(off, step, k)
  {
    var m := FloorMillis(Wall(off, k), step);
    FloorMillisIsFloor(Wall(off, k), step);
    NextMultiple(m, step);
    if Wall(off, k) == m {
      var e := ReachExists(off, m + step, m + step + MAX_OFFSET);
      OfLocalIsReach(off, m + step, n, e);
      ShownNext(off, step, k, n, e);
    } else {
      assert !Multiple(Wall(off, k), step) by {
        if Multiple(Wall(off, k), step) {
          FloorUnique(Wall(off, k), step, Wall(off, k));
        }
      }
      JumpsOverFloor(off, step, k);
      JumpedNext(off, step, k, n);
    }
  }

  /** No boundary lies strictly between two multiples that follow each other. */
  lemma BetweenMultiples(off: Clock, step: int, m: int, a: int, b: int)
    requires Regular(off) && step > 0 && Multiple(m, step) && forall x :: a <= x <= b ==> m <= Wall(off, x) < m + step
    requires forall x :: a < x <= b ==> m < Wall(off, x)
    ensures NoBoundary(off, step, a, b)
  {
    forall x | a < x <= b ensures !Boundary(off, step, x) {
      assert m <= Wall(off, x - 1) && m < Wall(off, x) < m + step;
      if Multiple(Wall(off, x), step) {
        MultiplesApart(m, Wall(off, x), step);
      }
      if j :| Multiple(j, step) && Gap(off, x, j) {
        MultiplesApart(m, j, step);
      }
    }
  }

  lemma ShownNext(off: Clock, step: int, k: int, n: int, e: int)
    requires Regular(off) && step > 0 && Wall(off, k) == FloorMillis(Wall(off, k), step) && FirstReach(off, Wall(off, k) + step, e)
    requires Multiple(Wall(off, k), step) && Multiple(Wall(off, k) + step, step)
    requires if Wall(off, e) == Wall(off, k) + step then n == e
             else Gap(off, e, Wall(off, k) + step) && e <= n && (n == e <==> Wall(off, e - 1) + 1 == Wall(off, k) + step)
    ensures NextBoundary(off, step, k, n) <==> StepsOn(off, step, k)
  {
    var m := Wall(off, k);
    assert Boundary(off, step, e);
    if StepsOn(off, step, k) {
      var d :| ShowsNext(off, m, m + step, k, d);
      ReachUnique(off, m + step, d, e);
      assert n == e;
      forall x | k <= x <= e - 1 ensures m <= Wall(off, x) < m + step {
      }
      BetweenMultiples(off, step, m, k, e - 1);
    }
    if NextBoundary(off, step, k, n) {
      assert k < e by {
        if e <= k {
          StartAgain(off, m + step, e, k);
        }
      }
      assert n == e;
      forall x | k < x < e ensures m < Wall(off, x) {
        if Wall(off, x) <= m {
          BackToMultiple(off, step, k, x, e);
        }
      }
      assert ShowsNext(off, m, m + step, k, e);
    }
  }

  /** A jump over a reading is not before an instant that shows less. */
  lemma StartAgain(off: Clock, m: int, e: int, k: int)
    requires Regular(off) && FirstReach(off, m, e) && e <= k && Wall(off, k) < m
    ensures !Gap(off, e, m)
  {
    if Gap(off, e, m) {
      GapExcludes(off, e, m, k);
    }
  }

  /** A clock that goes back to a multiple it has shown has a boundary there. */
  lemma BackToMultiple(off: Clock, step: int, k: int, x: int, e: int)
    requires Regular(off) && step > 0 && Multiple(Wall(off, k), step) && k < x < e && Wall(off, x) <= Wall(off, k) < Wall(off, e)
    ensures !NoBoundary(off, step, k, e - 1)
  {
    var m := Wall(off, k);
    if Wall(off, x) == m {
      assert Boundary(off, step, x);
    } else {
      var t := Climb(off, m, x, e);
      if Gap(off, t, m) {
        GapExcludes(off, t, m, k);
      }
      assert Wall(off, t) == m && Boundary(off, step, t);
    }
  }

  lemma JumpedNext(off: Clock, step: int, k: int, n: int)
    requires Regular(off) && step > 0 && Gap(off, k, FloorMillis(Wall(off, k), step))
    requires Wall(off, k) < FloorMillis(Wall(off, k), step) + step && Multiple(FloorMillis(Wall(off, k), step), step)
    requires Multiple(FloorMillis(Wall(off, k), step) + step, step)
    requires OfLocal(off, Wall(off, k) + step, n)
    ensures NextBoundary(off, step, k, n) <==> StepsOn(off, step, k)
  {
    var m := FloorMillis(Wall(off, k), step);
    var next, local := m + step, Wall(off, k) + step;
    var e := ReachExists(off, local, local + MAX_OFFSET);
    var d := ReachExists(off, next, e);
    ReachIsDayStart(off, next, d);
    assert Boundary(off, step, d);
    OfLocalIsReach(off, local, n, e);
    forall x | x <= k ensures Wall(off, x) < next {
      if x < k {
        GapExcludes(off, k, m, x);
      }
    }
    assert k < d;
    if StepsOn(off, step, k) {
      var t :| LandsOn(off, next, local, t);
      GapReached(off, next, t, d);
      GapReached(off, local, t, e);
      assert n == d == e == t;
      forall x | k <= x <= d - 1 ensures m < Wall(off, x) < next {
        AfterChange(off, k, x);
      }
      BetweenMultiples(off, step, m, k, d - 1);
    }
    if NextBoundary(off, step, k, n) {
      assert d <= e <= n;
      assert n == d == e;
      assert Wall(off, e) == local;
      assert LandsOn(off, next, local, d);
    }
  }

  /** A jump from below a reading to it or beyond is where the clock first reaches it. */
  lemma GapReached(off: Clock, m: int, t: int, e: int)
    requires Regular(off) && IsChange(off, t) && Wall(off, t - 1) < m <= Wall(off, t) && FirstReach(off, m, e)
    ensures e == t
  {
    forall x | x < t ensures Wall(off, x) < m {
      BeforeChange(off, t, x);
    }
  }

  /** Half an hour before the overlap, the next half hour was shown before it: nextZoned goes back. */
  lemma NextGoesBack(n: int)
    requires OfLocal(GapThenOverlap(), Wall(GapThenOverlap(), 99 * HOUR + HOUR / 2) + HOUR / 2, n)
    ensures Boundary(GapThenOverlap(), HOUR / 2, 99 * HOUR + HOUR / 2) && n == 99 * HOUR
  {
    var off, k := GapThenOverlap(), 99 * HOUR + HOUR / 2;
    assert Wall(off, k) == 199 * (HOUR / 2);
    assert Multiple(Wall(off, k), HOUR / 2);
    assert Wall(off, 99 * HOUR) == Wall(off, k) + HOUR / 2;
  }

  // ---------------------------------------------------------------- seconds, minutes and hours

  /** nextZoned for units below a day: the rounding of one step later, or of two. */
  ghost predicate NextSubDay(off: Clock, step: int, utc: int, n: int)
    requires step > 0
  {
    exists a :: TakesSteps(off, step, utc, a, n)
  }

  ghost predicate TakesSteps(off: Clock, step: int, utc: int, a: int, n: int)
    requires step > 0
  {
    SubDayOutcome(off, step, utc + step, a) && if utc < a then n == a else SubDayOutcome(off, step, utc + 2 * step, n)
  }

  method NextZonedSubDay(z: Zone, ghost off: Clock, unit: Unit, utc: int) returns (n: int)
    requires Keeps(z, off) && Regular(off) && (unit.Second? || unit.Minute? || unit.Hour?)
    requires -LIMIT <= utc <= LIMIT - 2 * HOUR
    ensures NextSubDay(off, StepOf(unit), utc, n)
  {
    hide SubDayOutcome, Keeps, Regular;
    var step := StepOf(unit);
    n := RoundSubDay(z, off, unit, utc + step);
    ghost var a := n;
    if n <= utc {
      n := RoundSubDay(z, off, unit, utc + 2 * step);
    }
    assert TakesSteps(off, step, utc, a, n);
  }

  /** The same with the cases of the outcomes. */
  ghost predicate StepCases(off: Clock, step: int, utc: int, a: int, n: int)
    requires step > 0
  {
    SubDayCase(off, step, utc + step, a) && if utc < a then n == a else SubDayCase(off, step, utc + 2 * step, n)
  }

  lemma StepsTaken(off: Clock, step: int, utc: int, a: int, n: int)
    requires Regular(off) && 0 < step <= HOUR && TakesSteps(off, step, utc, a, n)
    ensures StepCases(off, step, utc, a, n)
  {
    hide SubDayOutcome, SubDayCase, Regular;
    SubDayCases(off, step, utc + step, a);
    if a <= utc {
      SubDayCases(off, step, utc + 2 * step, n);
    }
  }

  /** Of two neighbouring stretches of at most 36 hours together, one is without a change. */
  lemma OneChange(off: Clock, x: int, y: int, z: int)
    requires Regular(off) && x <= y <= z <= x + 36 * HOUR
    ensures off(x) == off(y) || off(y) == off(z)
  {
    if off(x) != off(y) && off(y) != off(z) {
      var t := SomeChange(off, x, y);
      var u := SomeChange(off, y, z);
    }
  }

  ghost predicate Shown(off: Clock, step: int, k: int)
    requires step > 0
  {
    Multiple(Wall(off, k), step)
  }

  /** Under one offset, instants that show multiples are whole steps apart. */
  lemma StepsApart(off: Clock, step: int, a: int, b: int)
    requires step > 0 && off(a) == off(b) && Shown(off, step, a) && a < b
    ensures b < a + step ==> !Shown(off, step, b)
    ensures b == a + step ==> Shown(off, step, b)
    ensures a + step < b < a + 2 * step ==> !Shown(off, step, b)
  {
    NextMultiple(Wall(off, a), step);
    if Shown(off, step, b) {
      MultiplesApart(Wall(off, a), Wall(off, b), step);
      if a + step < b {
        MultiplesApart(Wall(off, a) + step, Wall(off, b), step);
      }
    }
  }

  /** There is at most one shown multiple within a step after another one. */
  lemma AtMostOne(off: Clock, step: int, k: int, a: int, b: int)
    requires Regular(off) && 0 < step <= HOUR && Shown(off, step, k) && k < a < b <= k + step && Shown(off, step, a)
    ensures !Shown(off, step, b)
  {
    OneChange(off, k, a, b);
    if off(k) == off(a) {
      StepsApart(off, step, k, a);
    } else {
      StepsApart(off, step, a, b);
    }
  }

  /** The first multiple that a stretch of one offset shows, within a step from its start. */
  lemma FirstShown(off: Clock, step: int, t: int) returns (a: int)
    requires Regular(off) && 0 < step <= HOUR && IsChange(off, t)
    ensures t <= a < t + step && Shown(off, step, a) && off(a) == off(t)
  {
    var m := FloorMillis(Wall(off, t), step);
    FloorMillisIsFloor(Wall(off, t), step);
    NextMultiple(m, step);
    a := if Wall(off, t) == m then t else t + (m + step - Wall(off, t));
    if off(t) != off(a) {
      var u := SomeChange(off, t, a);
    }
  }

  /** When the instant a step later shows no multiple, the clock has changed by then. */
  lemma ChangedByThen(off: Clock, step: int, k: int) returns (t: int)
    requires Regular(off) && step > 0 && Shown(off, step, k) && !Shown(off, step, k + step)
    ensures k < t <= k + step && IsChange(off, t)
  {
    if off(k) == off(k + step) {
      StepsApart(off, step, k, k + step);
    }
    t := SomeChange(off, k, k + step);
  }

  /** Then, the multiple after the change is the only one of the second step. */
  lemma SecondStep(off: Clock, step: int, k: int, n: int)
    requires Regular(off) && 0 < step <= HOUR && Shown(off, step, k)
    requires forall j :: k < j <= k + step ==> !Shown(off, step, j)
    requires LastShown(off, step, k + 2 * step, n)
    ensures k + step < n && Shown(off, step, n) && forall j :: k < j < n ==> !Shown(off, step, j)
  {
    var t := ChangedByThen(off, step, k);
    var a := FirstShown(off, step, t);
    assert Multiple(Wall(off, a), step);
    assert a <= n;
    forall j | k < j < n ensures !Shown(off, step, j) {
      if k + step < j {
        OneChange(off, k, j, n);
        if off(k) == off(j) {
          StepsApart(off, step, k, j);
        } else if Shown(off, step, j) {
          StepsApart(off, step, j, n);
        }
      }
    }
  }

  ghost predicate NextShown(off: Clock, step: int, k: int, n: int)
    requires step > 0
  {
    k < n && Shown(off, step, n) && forall j :: k < j < n ==> !Shown(off, step, j)
  }

  /** Two steps later is no change when one step later shows no multiple. */
  lemma TwoStepsPlain(off: Clock, step: int, k: int, n: int)
    requires Regular(off) && 0 < step <= HOUR && Shown(off, step, k) && !Shown(off, step, k + step)
    requires SubDayCase(off, step, k + 2 * step, n)
    ensures LastShown(off, step, k + 2 * step, n)
  {
    var t := ChangedByThen(off, step, k);
  }

  /** The one multiple of the step, when rounding one step later finds one after the key. */
  lemma FoundInStep(off: Clock, step: int, k: int, a: int)
    requires Regular(off) && 0 < step <= HOUR && Shown(off, step, k) && LastShown(off, step, k + step, a)
    ensures k <= a
    ensures k < a ==> NextShown(off, step, k, a)
    ensures k == a ==> forall j :: k < j <= k + step ==> !Shown(off, step, j)
  {
    if k < a {
      assert Shown(off, step, a);
      forall j | k < j < a ensures !Shown(off, step, j) {
        if Shown(off, step, j) {
          AtMostOne(off, step, k, j, a);
        }
      }
    }
  }

  lemma FoundInSecond(off: Clock, step: int, k: int, n: int)
    requires Regular(off) && 0 < step <= HOUR && Shown(off, step, k) && SubDayCase(off, step, k + 2 * step, n)
    requires forall j :: k < j <= k + step ==> !Shown(off, step, j)
    ensures NextShown(off, step, k, n)
  {
    TwoStepsPlain(off, step, k, n);
    hide SubDayCase, LastShown, Regular;
    SecondStep(off, step, k, n);
  }

  /** At a change that shows no multiple, rounding goes back beyond the key, or to the epoch. */
  lemma BackOfChange(off: Clock, step: int, k: int, a: int)
    requires Regular(off) && 0 < step <= HOUR && Shown(off, step, k) && !Plain(off, step, k + step)
    requires SubDayCase(off, step, k + step, a) && !(k < 0 && FirstChangeSkips(off, step, k + step))
    ensures a <= k && forall j :: k < j <= k + step ==> !Shown(off, step, j)
  {
    NotPlainShows(off, step, k + step);
    NothingBeforeChange(off, step, k);
    if k < a {
      assert Shown(off, step, a);
    }
  }

  /** Rounding one step later, then two, finds the next multiple, unless the first is the epoch by mistake. */
  lemma NextShownFound(off: Clock, step: int, k: int, a: int, n: int)
    requires Regular(off) && 0 < step <= HOUR && Shown(off, step, k) && !(k < 0 && FirstChangeSkips(off, step, k + step))
    requires StepCases(off, step, k, a, n)
    ensures NextShown(off, step, k, n)
  {
    if Plain(off, step, k + step) {
      assert LastShown(off, step, k + step, a);
      hide SubDayCase, LastShown, NextShown, Shown, Regular, Plain;
      FoundInStep(off, step, k, a);
      if a <= k {
        FoundInSecond(off, step, k, n);
      }
    } else {
      hide SubDayCase, LastShown, NextShown, Shown, Regular, Plain, FirstChangeSkips;
      BackOfChange(off, step, k, a);
      FoundInSecond(off, step, k, n);
    }
  }

  lemma NotPlainShows(off: Clock, step: int, u: int)
    requires step > 0 && !Plain(off, step, u)
    ensures IsChange(off, u) && !Shown(off, step, u)
  {
    if Shown(off, step, u) {
      FloorUnique(Wall(off, u), step, Wall(off, u));
    }
  }

  /** When the clock changes one step later, it shows no multiple until then. */
  lemma NothingBeforeChange(off: Clock, step: int, k: int)
    requires Regular(off) && 0 < step <= HOUR && Shown(off, step, k) && IsChange(off, k + step)
    ensures forall j :: k < j < k + step ==> !Shown(off, step, j)
  {
    forall j | k < j < k + step ensures !Shown(off, step, j) {
      if off(k) != off(j) {
        var t := SomeChange(off, k, j);
      }
      StepsApart(off, step, k, j);
    }
  }

  /** What rounding keeps: the instants that show multiples, and the epoch when it is rounded to by mistake. */
  ghost predicate SubDayKey(off: Clock, step: int, k: int)
    requires step > 0
  {
    Shown(off, step, k) || (k == 0 && FirstChangeSkips(off, step, 0))
  }

  lemma SubDayKeyExactly(off: Clock, step: int, k: int, r: int)
    requires Regular(off) && 0 < step <= HOUR && SubDayOutcome(off, step, k, r)
    ensures r == k <==> SubDayKey(off, step, k)
  {
    SubDayCases(off, step, k, r);
    hide SubDayOutcome;
    if Shown(off, step, k) {
      FloorUnique(Wall(off, k), step, Wall(off, k));
    }
    if FirstChangeSkips(off, step, k) {
      SkippedIsNotPlain(off, step, k);
    }
  }

  ghost predicate NextKey(off: Clock, step: int, k: int, n: int)
    requires step > 0
  {
    k < n && SubDayKey(off, step, n) && forall j :: k < j < n ==> !SubDayKey(off, step, j)
  }

  /** The epoch is taken for the next key, or is a key by mistake and is passed over. */
  ghost predicate EpochInTheWay(off: Clock, step: int, k: int)
    requires step > 0
  {
    if FirstChangeSkips(off, step, 0) then k < 0 < k + step
    else k < 0 && FirstChangeSkips(off, step, k + step) && !(Shown(off, step, 0) && 0 < k + 2 * step)
  }

  /** nextZoned of a key is the least key after it exactly when the epoch is not in the way. */
  lemma SubDayNextExactly(off: Clock, step: int, k: int, n: int)
    requires Regular(off) && 0 < step <= HOUR && SubDayKey(off, step, k) && NextSubDay(off, step, k, n)
    ensures NextKey(off, step, k, n) <==> !EpochInTheWay(off, step, k)
  {
    var a :| TakesSteps(off, step, k, a, n);
    StepsTaken(off, step, k, a, n);
    if !FirstChangeSkips(off, step, 0) {
      NoEpochKey(off, step, k, a, n);
    } else {
      SkippedIsNotPlain(off, step, 0);
      hide SubDayCase, FirstChangeSkips, Plain, SubDayKey, EpochInTheWay, NextKey, StepCases;
      EpochIsKey(off, step, k, a, n);
    }
  }

  lemma ShownKeys(off: Clock, step: int, k: int, n: int)
    requires step > 0 && !FirstChangeSkips(off, step, 0)
    ensures NextKey(off, step, k, n) <==> NextShown(off, step, k, n)
  {
    hide Shown, FirstChangeSkips;
    if NextKey(off, step, k, n) {
      forall j | k < j < n ensures !Shown(off, step, j) {
        assert !SubDayKey(off, step, j);
      }
    }
  }

  lemma NoEpochKey(off: Clock, step: int, k: int, a: int, n: int)
    requires Regular(off) && 0 < step <= HOUR && SubDayKey(off, step, k) && !FirstChangeSkips(off, step, 0) && StepCases(off, step, k, a, n)
    ensures NextKey(off, step, k, n) <==> !EpochInTheWay(off, step, k)
  {
    hide Shown, NextShown, NextKey, Regular;
    ShownKeys(off, step, k, n);
    if k < 0 && FirstChangeSkips(off, step, k + step) {
      SkippedIsNotPlain(off, step, k + step);
      EpochNext(off, step, k);
    } else {
      NextShownFound(off, step, k, a, n);
    }
  }

  /** When the first change comes one step later and skips its multiple: whether the epoch is the next key. */
  lemma EpochNext(off: Clock, step: int, k: int)
    requires Regular(off) && 0 < step <= HOUR && Shown(off, step, k) && k < 0 && FirstChangeSkips(off, step, k + step)
    ensures NextShown(off, step, k, 0) <==> Shown(off, step, 0) && 0 < k + 2 * step
  {
    var u := k + step;
    SkippedIsNotPlain(off, step, u);
    NotPlainShows(off, step, u);
    NothingBeforeChange(off, step, k);
    var b := FirstShown(off, step, u);
    if Shown(off, step, 0) && 0 < k + 2 * step {
      forall j | k < j < 0 ensures !Shown(off, step, j) {
        if u < j && Shown(off, step, j) {
          OneChange(off, k, j, 0);
          if off(k) == off(j) {
            StepsApart(off, step, k, j);
          } else {
            StepsApart(off, step, j, 0);
          }
        }
      }
    }
  }

  /** When the epoch is a key by mistake. */
  lemma EpochIsKey(off: Clock, step: int, k: int, a: int, n: int)
    requires Regular(off) && 0 < step <= HOUR && SubDayKey(off, step, k)
    requires FirstChangeSkips(off, step, 0) && !Plain(off, step, 0)
    requires StepCases(off, step, k, a, n)
    ensures NextKey(off, step, k, n) <==> !EpochInTheWay(off, step, k)
  {
    NotPlainShows(off, step, 0);
    if k == 0 {
      AfterEpoch(off, step, a);
    } else if k + step == 0 {
      NothingBeforeChange(off, step, k);
    } else {
      OnlyFirst(off, step, k + step);
      NextShownFound(off, step, k, a, n);
      if k < 0 < k + step {
        assert n != 0;
        assert !NextKey(off, step, k, n) by {
          if n < 0 {
            BeforeEpoch(off, step, k, n);
          }
          assert SubDayKey(off, step, 0);
        }
      } else if k < 0 {
        BeforeFirst(off, step, k, n);
      }
    }
  }

  lemma OnlyFirst(off: Clock, step: int, u: int)
    requires step > 0 && FirstChangeSkips(off, step, 0) && u != 0
    ensures !FirstChangeSkips(off, step, u)
  {
    if FirstChangeSkips(off, step, u) {
      GapIsChange(off, 0, FloorMillis(Wall(off, 0), step));
      GapIsChange(off, u, FloorMillis(Wall(off, u), step));
    }
  }

  lemma BeforeEpoch(off: Clock, step: int, k: int, n: int)
    requires step > 0 && NoEarlierChange(off, 0) && -step < k < n < 0 && Shown(off, step, k)
    ensures !Shown(off, step, n)
  {
    SteadyBefore(off, k, n);
    StepsApart(off, step, k, n);
  }

  lemma SteadyBefore(off: Clock, k: int, n: int)
    requires NoEarlierChange(off, 0) && k <= n < 0
    ensures off(k) == off(n)
  {
    if off(k) != off(n) {
      var t := SomeChange(off, k, n);
    }
  }

  /** A step that ends before the epoch. */
  lemma BeforeFirst(off: Clock, step: int, k: int, n: int)
    requires step > 0 && NoEarlierChange(off, 0) && k + step < 0 && Shown(off, step, k) && NextShown(off, step, k, n)
    ensures n == k + step
  {
    SteadyBefore(off, k, k + step);
    StepsApart(off, step, k, k + step);
    forall j | k < j < k + step ensures !Shown(off, step, j) {
      SteadyBefore(off, k, j);
      StepsApart(off, step, k, j);
    }
  }

  /** The first key after the epoch. */
  lemma AfterEpoch(off: Clock, step: int, a: int)
    requires Regular(off) && 0 < step <= HOUR && IsChange(off, 0) && !Shown(off, step, 0) && SubDayCase(off, step, step, a)
    ensures 0 < a && NextShown(off, step, 0, a)
  {
    assert !IsChange(off, step);
    var b := FirstShown(off, step, 0);
    assert LastShown(off, step, step, a);
    assert b != 0 && b <= a;
    forall j | 0 < j < a ensures !Shown(off, step, j) {
      if off(j) != off(a) {
        var t := SomeChange(off, j, a);
      }
      if Shown(off, step, j) {
        StepsApart(off, step, j, a);
      }
    }
  }

  /** From the hour before the clocks of 1912 moved, the next hour is that of the epoch. */
  lemma EpochInTheWayHappens(n: int)
    requires NextSubDay(MeanTimeUntil1912(), HOUR, -1830383032000 - HOUR, n)
    ensures Shown(MeanTimeUntil1912(), HOUR, -1830383032000 - HOUR) && n == 0
    ensures EpochInTheWay(MeanTimeUntil1912(), HOUR, -1830383032000 - HOUR)
  {
    var off, t := MeanTimeUntil1912(), -1830383032000;
    RoundsForwardHappens();
    assert FirstChangeSkips(off, HOUR, t);
    SkippedIsNotPlain(off, HOUR, t);
    assert Wall(off, t - HOUR) == -508441 * HOUR;
    assert Multiple(Wall(off, t - HOUR), HOUR);
    assert Wall(off, -1) == Wall(off, 0) - 1;
  }

  // ---------------------------------------------------------------- the roundings that can be filled

  /** nextZoned */
  ghost predicate NextOutcome(off: Clock, p: Prepared, utc: int, n: int)
    requires p.Valid()
  {
    match p
    case Fixed(interval, _) => OfLocal(off, Wall(off, utc) + interval, n)
    case Calendar(unit, _) =>
      if unit.Second? || unit.Minute? || unit.Hour? then NextSubDay(off, StepOf(unit), utc, n) else NextDay(off, unit, utc, n)
  }

  /** nextZoned, and dateRounding.next around it. */
  method Next(z: Zone, ghost off: Clock, p: Prepared, utc: int) returns (n: int)
    requires Keeps(z, off) && Regular(off) && p.Valid() && -LIMIT <= utc - p.shift <= LIMIT - 2 * HOUR
    ensures NextOutcome(off, p, utc - p.shift, n - p.shift)
  {
    var zoned;
    if p.Fixed? {
      zoned := NextZonedInterval(z, off, p.interval, utc - p.shift);
    } else if p.SubDay() {
      zoned := NextZonedSubDay(z, off, p.unit, utc - p.shift);
    } else {
      zoned := NextZonedDay(z, off, p.unit, utc - p.shift);
    }
    n := zoned + p.shift;
  }

  /** The grid of a prepared rounding. */
  ghost predicate GridOf(off: Clock, p: Prepared, g: GapFilling.Grid)
    requires p.Valid()
  {
    && (forall x {:trigger g.round(x)} :: Outcome(off, p, x - p.shift, g.round(x) - p.shift))
    && (forall x {:trigger g.next(x)} :: NextOutcome(off, p, x - p.shift, g.next(x) - p.shift))
  }

  /** Every histogram on days, weeks, months, quarters or years can be filled, in every zone. */
  lemma DayLaws(off: Clock, p: Prepared, g: GapFilling.Grid)
    requires Regular(off) && p.Valid() && p.Calendar? && !p.SubDay() && GridOf(off, p, g)
    ensures GapFilling.Laws(g)
  {
    hide DayStart, TruncateLocal, NextMidnight, Regular;
    forall x ensures GapFilling.IsKey(g, x) <==> RoundsToDay(off, p.unit, x - p.shift, x - p.shift) {
      DayKey(off, p, g, x);
    }
    hide RoundsToDay;
    forall k | GapFilling.IsKey(g, k) ensures GapFilling.Follows(g, k, g.next(k)) {
      assert NextOutcome(off, p, k - p.shift, g.next(k) - p.shift);
      NextDayIsLeast(off, p.unit, k - p.shift, g.next(k) - p.shift);
    }
  }

  lemma DayKey(off: Clock, p: Prepared, g: GapFilling.Grid, x: int)
    requires Regular(off) && p.Valid() && p.Calendar? && !p.SubDay() && GridOf(off, p, g)
    ensures GapFilling.IsKey(g, x) <==> RoundsToDay(off, p.unit, x - p.shift, x - p.shift)
  {
    hide DayStart, TruncateLocal, Regular;
    assert Outcome(off, p, x - p.shift, g.round(x) - p.shift);
    if RoundsToDay(off, p.unit, x - p.shift, x - p.shift) {
      DayStartUnique(off, TruncateLocal(Wall(off, x - p.shift), p.unit), x - p.shift, g.round(x) - p.shift);
    }
  }

  lemma IntervalGridKey(off: Clock, p: Prepared, g: GapFilling.Grid, x: int)
    requires Regular(off) && p.Valid() && p.Fixed? && GridOf(off, p, g)
    ensures GapFilling.IsKey(g, x) <==> Boundary(off, p.interval, x - p.shift)
  {
    hide Boundary, RoundsToInterval, Regular;
    assert Outcome(off, p, x - p.shift, g.round(x) - p.shift);
    IntervalKey(off, p.interval, x - p.shift);
    if Boundary(off, p.interval, x - p.shift) {
      IntervalUnique(off, p.interval, x - p.shift, x - p.shift, g.round(x) - p.shift);
    }
  }

  lemma SubDayGridKey(off: Clock, p: Prepared, g: GapFilling.Grid, x: int)
    requires Regular(off) && p.Valid() && p.SubDay() && GridOf(off, p, g)
    ensures GapFilling.IsKey(g, x) <==> SubDayKey(off, StepOf(p.unit), x - p.shift)
  {
    hide SubDayKey, SubDayOutcome;
    assert Outcome(off, p, x - p.shift, g.round(x) - p.shift);
    SubDayKeyExactly(off, StepOf(p.unit), x - p.shift, g.round(x) - p.shift);
  }

  /** A histogram on intervals can be filled exactly when the clock steps on from every boundary. */
  lemma IntervalLaws(off: Clock, p: Prepared, g: GapFilling.Grid)
    requires Regular(off) && p.Valid() && p.Fixed? && GridOf(off, p, g)
    ensures GapFilling.Laws(g) <==> forall k :: Boundary(off, p.interval, k) ==> StepsOn(off, p.interval, k)
  {
    hide Boundary, StepsOn, Outcome, Regular, OfLocal, NextBoundary;
    forall x ensures GapFilling.IsKey(g, x) <==> Boundary(off, p.interval, x - p.shift) {
      IntervalGridKey(off, p, g, x);
    }
    forall k | GapFilling.IsKey(g, k) ensures GapFilling.Follows(g, k, g.next(k)) <==> StepsOn(off, p.interval, k - p.shift) {
      assert NextOutcome(off, p, k - p.shift, g.next(k) - p.shift);
      IntervalNextExactly(off, p.interval, k - p.shift, g.next(k) - p.shift);
      ShiftedBoundary(off, p, g, k, g.next(k));
    }
    if GapFilling.Laws(g) {
      forall k | Boundary(off, p.interval, k) ensures StepsOn(off, p.interval, k) {
        assert GapFilling.IsKey(g, k + p.shift) && GapFilling.Follows(g, k + p.shift, g.next(k + p.shift));
      }
    }
  }

  lemma ShiftedBoundary(off: Clock, p: Prepared, g: GapFilling.Grid, k: int, n: int)
    requires p.Valid() && p.Fixed?
    requires forall x :: GapFilling.IsKey(g, x) <==> Boundary(off, p.interval, x - p.shift)
    ensures GapFilling.Follows(g, k, n) <==> NextBoundary(off, p.interval, k - p.shift, n - p.shift)
  {
    hide Boundary;
    if GapFilling.Follows(g, k, n) {
      forall b | k - p.shift < b <= n - p.shift - 1 ensures !Boundary(off, p.interval, b) {
        assert !GapFilling.IsKey(g, b + p.shift);
      }
    }
  }

  /** A histogram on hours or less can be filled exactly when the epoch is not in the way of any key. */
  lemma SubDayLaws(off: Clock, p: Prepared, g: GapFilling.Grid)
    requires Regular(off) && p.Valid() && p.SubDay() && GridOf(off, p, g)
    ensures GapFilling.Laws(g)
       <==> forall k :: SubDayKey(off, StepOf(p.unit), k) ==> !EpochInTheWay(off, StepOf(p.unit), k)
  {
    var step := StepOf(p.unit);
    hide SubDayKey, EpochInTheWay, GapFilling.Follows, Regular, GridOf;
    forall k ensures GapFilling.IsKey(g, k) <==> SubDayKey(off, step, k - p.shift) {
      SubDayGridKey(off, p, g, k);
    }
    hide GapFilling.IsKey;
    forall k | GapFilling.IsKey(g, k) ensures GapFilling.Follows(g, k, g.next(k)) <==> !EpochInTheWay(off, step, k - p.shift) {
      SubDayFollows(off, p, g, k);
    }
    if GapFilling.Laws(g) {
      forall k | SubDayKey(off, step, k) ensures !EpochInTheWay(off, step, k) {
        assert GapFilling.IsKey(g, k + p.shift) && GapFilling.Follows(g, k + p.shift, g.next(k + p.shift));
      }
    }
  }

  lemma SubDayFollows(off: Clock, p: Prepared, g: GapFilling.Grid, k: int)
    requires Regular(off) && p.Valid() && p.SubDay() && GridOf(off, p, g) && GapFilling.IsKey(g, k)
    ensures GapFilling.Follows(g, k, g.next(k)) <==> !EpochInTheWay(off, StepOf(p.unit), k - p.shift)
  {
    hide Regular, GridOf, SubDayKey, EpochInTheWay, NextSubDay, NextKey, GapFilling.Follows, GapFilling.IsKey;
    var step := StepOf(p.unit);
    GridSteps(off, p, g, k);
    forall x ensures GapFilling.IsKey(g, x) <==> SubDayKey(off, step, x - p.shift) {
      SubDayGridKey(off, p, g, x);
    }
    SubDayNextExactly(off, step, k - p.shift, g.next(k) - p.shift);
    ShiftedKey(off, step, p.shift, g, k, g.next(k));
  }

  lemma GridSteps(off: Clock, p: Prepared, g: GapFilling.Grid, k: int)
    requires p.Valid() && p.SubDay() && GridOf(off, p, g)
    ensures NextSubDay(off, StepOf(p.unit), k - p.shift, g.next(k) - p.shift) && StepOf(p.unit) <= HOUR
  {
    hide NextSubDay, SubDayOutcome, Outcome;
    assert NextOutcome(off, p, k - p.shift, g.next(k) - p.shift);
  }

  lemma ShiftedKey(off: Clock, step: int, shift: int, g: GapFilling.Grid, k: int, n: int)
    requires step > 0 && forall x :: GapFilling.IsKey(g, x) <==> SubDayKey(off, step, x - shift)
    ensures GapFilling.Follows(g, k, n) <==> NextKey(off, step, k - shift, n - shift)
  {
    hide SubDayKey;
    if GapFilling.Follows(g, k, n) {
      forall j | k - shift < j < n - shift ensures !SubDayKey(off, step, j) {
        assert !GapFilling.IsKey(g, j + shift);
      }
    }
  }
}

/**
 * Date rounding of the histogram aggregations, internal/engine/aggs_dates.go: to calendar units and
 * to fixed intervals of local time, in any zone whose offset changes are more than 36 hours apart.
 */
module Rounding {
  import opened Clocks
  import opened Zones

  // ---------------------------------------------------------------- multiples of a step

  /** Go's integer division, which truncates toward zero, by a positive divisor. */
  function TruncDiv(a: int, b: int): int
    requires b > 0
  {
    if a >= 0 then a / b else -((-a) / b)
  }

  function RoundKey(value: int, interval: int): int
    requires interval > 0
  {
    if value < 0 then TruncDiv(value - interval + 1, interval) else TruncDiv(value, interval)
  }

  function FloorMillis(v: int, step: int): int
    requires step > 0
  {
    RoundKey(v, step) * step
  }

  ghost predicate Multiple(m: int, step: int)
    requires step > 0
  {
    exists k: int :: m == k * step
  }

  lemma DivisionBounds(a: int, b: int)
    requires a >= 0 && b > 0
    ensures (a / b) * b <= a < (a / b) * b + b
  {
  }

  /** roundKey is the floor of the quotient, on either side of zero. */
  lemma FloorMillisIsFloor(v: int, step: int)
    requires step > 0
    ensures Multiple(FloorMillis(v, step), step)
    ensures FloorMillis(v, step) <= v < FloorMillis(v, step) + step
  {
    if v < 0 {
      var q := (step - 1 - v) / step;
      DivisionBounds(step - 1 - v, step);
      assert -(v - step + 1) == step - 1 - v;
      assert (-q) * step == -(q * step);
    } else {
      DivisionBounds(v, step);
    }
  }

  lemma MultiplesApart(a: int, b: int, step: int)
    requires step > 0 && Multiple(a, step) && Multiple(b, step) && a < b
    ensures a + step <= b
  {
    var j: int :| a == j * step;
    var k: int :| b == k * step;
    MulMonotone(k, j, step);
    MulMonotone(j + 1, k, step);
    assert (j + 1) * step == j * step + step;
  }

  lemma MulMonotone(j: int, k: int, step: int)
    requires step > 0
    ensures j <= k ==> j * step <= k * step
  {
    if j <= k {
      assert (k - j) * step >= 0;
      assert (k - j) * step == k * step - j * step;
    }
  }

  /** The floor is the only multiple less than a step below. */
  lemma FloorUnique(v: int, step: int, m: int)
    requires step > 0 && Multiple(m, step) && m <= v < m + step
    ensures FloorMillis(v, step) == m
  {
    FloorMillisIsFloor(v, step);
    var f := FloorMillis(v, step);
    if f < m {
      MultiplesApart(f, m, step);
    } else if m < f {
      MultiplesApart(m, f, step);
    }
  }

  // ---------------------------------------------------------------- calendar units

  /**
   * Month, quarter and year are cut by Go's time package, which is not part of this model: they
   * are any floor function on local times, with the function to the next local time it keeps.
   */
  datatype Unit = Second | Minute | Hour | Day | Week | Coarse(floor: int -> int, follow: int -> int) {
    ghost predicate Valid() { Coarse? ==> FloorLike(floor) && FollowLike(floor, follow) }
  }

  /** A monotone idempotent function that goes down, but not out of range. */
  ghost predicate FloorLike(f: int -> int) {
    && (forall x :: x - LIMIT <= f(x) <= x)
    && (forall x {:trigger f(f(x))} :: f(f(x)) == f(x))
    && (forall x, y :: x <= y ==> f(x) <= f(y))
  }

  /** From every local time that the floor keeps to the next one, and not out of range. */
  ghost predicate FollowLike(f: int -> int, follow: int -> int) {
    forall m {:trigger follow(m)} :: f(m) == m ==> IsNext(f, m, follow(m))
  }

  ghost predicate IsNext(f: int -> int, m: int, n: int) {
    m < n <= m + LIMIT && f(n) == n && forall j {:trigger f(j)} :: m < j < n ==> f(j) != j
  }

  function StepOf(unit: Unit): (step: int)
    requires unit.Second? || unit.Minute? || unit.Hour?
    ensures 0 < step <= HOUR
  {
    match unit
    case Second => 1000
    case Minute => 60000
    case Hour => HOUR
  }

  /** truncateLocal; the epoch fell on a Thursday, and weeks start on Monday. */
  function TruncateLocal(local: int, unit: Unit): int {
    match unit
    case Second => FloorMillis(local, 1000)
    case Minute => FloorMillis(local, 60000)
    case Hour => FloorMillis(local, HOUR)
    case Day => FloorMillis(local, DAY)
    case Week =>
      var day := RoundKey(local, DAY);
      var weekday := (day + 4) % 7;
      var wd := if weekday == 0 then 7 else weekday;
      (day - (wd - 1)) * DAY
    case Coarse(floor, _) => floor(local)
  }

  /** nextRelevantMidnight */
  function NextMidnight(midnight: int, unit: Unit): int
    requires unit.Day? || unit.Week? || unit.Coarse?
  {
    match unit
    case Day => midnight + DAY
    case Week => midnight + 7 * DAY
    case Coarse(_, follow) => follow(midnight)
  }

  lemma StepFloor(step: int, f: int -> int)
    requires 0 < step <= LIMIT && forall x :: f(x) == FloorMillis(x, step)
    ensures FloorLike(f)
  {
    forall x ensures x - LIMIT <= f(x) <= x && f(f(x)) == f(x) {
      FloorMillisIsFloor(x, step);
      FloorUnique(f(x), step, f(x));
    }
    forall x, y | x <= y ensures f(x) <= f(y) {
      FloorMillisIsFloor(x, step);
      FloorMillisIsFloor(y, step);
      if f(y) < f(x) {
        MultiplesApart(f(y), f(x), step);
      }
    }
  }

  /** A week is seven days from a Monday. */
  lemma WeekIsShiftedFloor(local: int)
    ensures TruncateLocal(local, Week) == FloorMillis(local + 3 * DAY, 7 * DAY) - 3 * DAY
  {
    var day := RoundKey(local, DAY);
    FloorMillisIsFloor(local, DAY);
    var weekday := (day + 4) % 7;
    var wd := if weekday == 0 then 7 else weekday;
    var k := (day + 3 - (wd - 1)) / 7;
    assert day + 3 - (wd - 1) == 7 * k;
    assert (day + 3 - (wd - 1)) * DAY == k * (7 * DAY);
    FloorUnique(local + 3 * DAY, 7 * DAY, k * (7 * DAY));
  }

  /** Truncation to any unit is a monotone idempotent floor. */
  lemma TruncateIsFloor(unit: Unit, f: int -> int)
    requires unit.Valid() && forall x :: f(x) == TruncateLocal(x, unit)
    ensures FloorLike(f)
  {
    match unit
    case Second => StepFloor(1000, f);
    case Minute => StepFloor(60000, f);
    case Hour => StepFloor(HOUR, f);
    case Day => StepFloor(DAY, f);
    case Week =>
      var g := x => FloorMillis(x, 7 * DAY);
      StepFloor(7 * DAY, g);
      forall x ensures f(x) == g(x + 3 * DAY) - 3 * DAY {
        WeekIsShiftedFloor(x);
      }
      forall x ensures x - LIMIT <= f(x) <= x && f(f(x)) == f(x) {
        FloorMillisIsFloor(x + 3 * DAY, 7 * DAY);
      }
      forall x, y | x <= y ensures f(x) <= f(y) {
        assert g(x + 3 * DAY) <= g(y + 3 * DAY);
      }
    case Coarse(floor, _) =>
      forall x ensures f(x) == floor(x) {
      }
  }

  // ---------------------------------------------------------------- days and longer

  /** The first instant of a local day: the first that shows its midnight, or the jump over it. */
  ghost predicate DayStart(off: Clock, midnight: int, r: int) {
    if exists x :: Wall(off, x) == midnight
    then Wall(off, r) == midnight && forall x :: Wall(off, x) == midnight ==> r <= x
    else Gap(off, r, midnight)
  }

  lemma DayStartUnique(off: Clock, midnight: int, r: int, s: int)
    requires Regular(off) && DayStart(off, midnight, r) && DayStart(off, midnight, s)
    ensures r == s
  {
    if exists x :: Wall(off, x) == midnight {
      assert r <= s && s <= r;
    } else {
      GapUnique(off, r, s, midnight);
    }
  }

  method FirstTimeOnDay(z: Zone, ghost off: Clock, local: int) returns (r: int)
    requires Keeps(z, off) && Regular(off) && -WIDE <= local <= WIDE
    ensures DayStart(off, local, r)
  {
    var offsets := ValidOffsets(z, off, local);
    if |offsets| > 0 {
      r := local - offsets[0];
      assert offsets[0] in offsets;
      forall x | Wall(off, x) == local ensures r <= x {
        assert off(x) in offsets && x == local - off(x);
      }
      return;
    }
    ghost var t := Reached(off, local, local + MAX_OFFSET);
    assert Gap(off, t, local);
    r := GapTransition(z, off, local);
  }

  /** The start of a day the clock has reached is not in the future. */
  lemma DayStartNotAfter(off: Clock, midnight: int, utc: int, r: int)
    requires Regular(off) && midnight <= Wall(off, utc) && DayStart(off, midnight, r)
    ensures r <= utc
    ensures midnight <= Wall(off, r) <= Wall(off, utc)
  {
    var t := Reached(off, midnight, utc);
    if Gap(off, t, midnight) {
      forall x ensures Wall(off, x) != midnight {
        GapExcludes(off, t, midnight, x);
      }
      GapUnique(off, t, r, midnight);
      AfterChange(off, r, utc);
    }
  }

  /** Rounding to a unit of a day or more. */
  ghost predicate RoundsToDay(off: Clock, unit: Unit, utc: int, r: int) {
    DayStart(off, TruncateLocal(Wall(off, utc), unit), r)
  }

  /** Such a rounding goes down and is idempotent, gaps and overlaps included. */
  lemma DayRoundingIdempotent(off: Clock, unit: Unit, utc: int, r: int, rr: int)
    requires Regular(off) && unit.Valid()
    requires RoundsToDay(off, unit, utc, r) && RoundsToDay(off, unit, r, rr)
    ensures r <= utc && rr == r
  {
    var f := x => TruncateLocal(x, unit);
    TruncateIsFloor(unit, f);
    var midnight := f(Wall(off, utc));
    DayStartNotAfter(off, midnight, utc, r);
    assert f(midnight) == midnight;
    assert f(midnight) <= f(Wall(off, r)) <= f(Wall(off, utc));
    DayStartUnique(off, midnight, r, rr);
  }

  // ---------------------------------------------------------------- fixed intervals

  /** An instant at which the clock shows a multiple of the interval, or jumps over one. */
  ghost predicate Boundary(off: Clock, step: int, b: int)
    requires step > 0
  {
    Multiple(Wall(off, b), step) || exists m :: Multiple(m, step) && Gap(off, b, m)
  }

  ghost predicate NoBoundary(off: Clock, step: int, after: int, upto: int)
    requires step > 0
  {
    forall b :: after < b <= upto ==> !Boundary(off, step, b)
  }

  /** The clock jumps over a reading. */
  ghost predicate Skipped(off: Clock, m: int) { exists t :: Gap(off, t, m) }

  /**
   * What rounding to an interval returns: the jump over the multiple below the local time when there
   * is one, and otherwise the last boundary.
   */
  ghost predicate RoundsToInterval(off: Clock, step: int, utc: int, r: int)
    requires step > 0
  {
    var m := FloorMillis(Wall(off, utc), step);
    r <= utc && Boundary(off, step, r) && if Skipped(off, m) then Gap(off, r, m) else NoBoundary(off, step, r, utc)
  }

  /**
   * The multiple below the local time is jumped over, and between that jump and utc the clock has
   * reached the next multiple before an overlap set it back.
   */
  ghost predicate Overshoots(off: Clock, step: int, utc: int)
    requires step > 0
  {
    var m := FloorMillis(Wall(off, utc), step);
    exists t, x :: Gap(off, t, m) && t < x <= utc && m + step <= Wall(off, x)
  }

  lemma SteadyWall(off: Clock, start: int, utc: int, x: int)
    requires Steady(off, start, utc) && start <= x <= utc
    ensures Wall(off, x) == Wall(off, utc) - (utc - x)
  {
  }

  /** Inside one stretch the last multiple is the last boundary. */
  lemma SteadyCase(off: Clock, step: int, start: int, inst: int, utc: int)
    requires Regular(off) && step > 0 && Steady(off, start, utc) && start <= inst <= utc
    requires Wall(off, inst) == FloorMillis(Wall(off, utc), step)
    ensures RoundsToInterval(off, step, utc, inst)
  {
    var m := Wall(off, inst);
    FloorMillisIsFloor(Wall(off, utc), step);
    ShownIsNotSkipped(off, m, inst);
    forall b | inst < b <= utc ensures !Boundary(off, step, b) {
      assert off(b - 1) == off(b) == off(inst) == off(utc);
      if Multiple(Wall(off, b), step) {
        MultiplesApart(m, Wall(off, b), step);
      }
    }
  }

  lemma ShownIsNotSkipped(off: Clock, m: int, x: int)
    requires Regular(off) && Wall(off, x) == m
    ensures !Skipped(off, m)
  {
    if t :| Gap(off, t, m) {
      GapExcludes(off, t, m, x);
    }
  }

  /**
   * A rounding of the last instant before a stretch without boundaries is one of its end. It cannot
   * have overshot, since the clock has never shown more than right before the change.
   */
  lemma EarlierCase(off: Clock, step: int, start: int, utc: int, r: int, shown: int)
    requires Regular(off) && step > 0 && start <= utc + 1 && IsChange(off, start)
    requires Wall(off, shown) == FloorMillis(Wall(off, utc), step)
    requires RoundsToInterval(off, step, start - 1, r) && NoBoundary(off, step, start - 1, utc)
    ensures RoundsToInterval(off, step, utc, r)
  {
    ShownIsNotSkipped(off, FloorMillis(Wall(off, utc), step), shown);
    var m := FloorMillis(Wall(off, start - 1), step);
    if Skipped(off, m) {
      forall x | r < x <= start - 1 ensures Wall(off, x) < m + step {
        BeforeChange(off, start, x);
        FloorMillisIsFloor(Wall(off, start - 1), step);
      }
      GapCase(off, step, r, start - 1, m);
    }
  }

  /** When the stretch does not show the multiple below utc, it has no boundary at all. */
  lemma StretchWithoutBoundary(off: Clock, step: int, start: int, utc: int, shown: int)
    requires step > 0 && Regular(off) && Steady(off, start, utc) && start <= utc
    requires Wall(off, shown) == FloorMillis(Wall(off, utc), step)
    requires forall x :: Wall(off, x) == FloorMillis(Wall(off, utc), step) ==> x < start || utc < x
    ensures NoBoundary(off, step, start - 1, utc)
  {
    var m := FloorMillis(Wall(off, utc), step);
    FloorMillisIsFloor(Wall(off, utc), step);
    var inst := utc - (Wall(off, utc) - m);
    if start <= inst {
      SteadyWall(off, start, utc, inst);
    }
    SteadyWall(off, start, utc, start);
    assert m < Wall(off, start);
    forall b | start - 1 < b <= utc ensures !Boundary(off, step, b) {
      SteadyWall(off, start, utc, b);
      if Multiple(Wall(off, b), step) {
        MultiplesApart(m, Wall(off, b), step);
      }
      forall m' | Multiple(m', step) ensures !Gap(off, b, m') {
        NoMultipleJumped(off, step, start, utc, shown, b, m');
      }
    }
  }

  lemma NoMultipleJumped(off: Clock, step: int, start: int, utc: int, shown: int, b: int, m': int)
    requires step > 0 && Regular(off) && Steady(off, start, utc) && start <= b <= utc
    requires Wall(off, shown) == FloorMillis(Wall(off, utc), step) < Wall(off, start)
    requires Multiple(m', step)
    ensures !Gap(off, b, m')
  {
    var m := FloorMillis(Wall(off, utc), step);
    FloorMillisIsFloor(Wall(off, utc), step);
    SteadyWall(off, start, utc, b);
    if b > start {
      SteadyWall(off, start, utc, b - 1);
    } else if Gap(off, b, m) {
      GapExcludes(off, b, m, shown);
    } else if m < m' {
      MultiplesApart(m, m', step);
    }
  }

  /** Unless the clock has reached the next multiple, a jump over a multiple is the last boundary. */
  lemma GapCase(off: Clock, step: int, r: int, utc: int, m: int)
    requires step > 0 && Regular(off) && m == FloorMillis(Wall(off, utc), step) && Gap(off, r, m)
    requires forall x :: r < x <= utc ==> Wall(off, x) < m + step
    ensures NoBoundary(off, step, r, utc)
  {
    FloorMillisIsFloor(Wall(off, utc), step);
    if b :| r < b <= utc && Boundary(off, step, b) {
      AfterChange(off, r, b);
      AfterChange(off, r, b - 1);
      if Multiple(Wall(off, b), step) {
        MultiplesApart(m, Wall(off, b), step);
      } else {
        var m' :| Multiple(m', step) && Gap(off, b, m');
        MultiplesApart(m, m', step);
      }
    }
  }

  /** The last listed instant that is not after utc, or the first before the current stretch. */
  ghost predicate LaterPassed(local: int, offsets: seq<int>, i: nat, utc: int) {
    forall j :: i < j < |offsets| ==> utc < local - offsets[j]
  }

  /** roundInterval. */
  method RoundInterval(z: Zone, ghost off: Clock, interval: int, utc: int) returns (r: int)
    requires Keeps(z, off) && Regular(off) && 0 < interval <= LIMIT && -LIMIT - 1 <= utc <= LIMIT
    ensures RoundsToInterval(off, interval, utc, r)
    decreases utc + LIMIT + 1
  {
    hide RoundsToInterval;
    var local := utc + OffsetAt(z, utc);
    assert local == Wall(off, utc);
    var rounded := RoundKey(local, interval) * interval;
    FloorMillisIsFloor(local, interval);
    assert rounded == FloorMillis(Wall(off, utc), interval);
    hide FloorMillis, RoundKey, Multiple;
    var offsets := ValidOffsets(z, off, rounded);
    if |offsets| == 0 {
      r := GapTransition(z, off, rounded);
      NotShownCase(off, interval, utc, offsets, r);
      return;
    }
    var prev, hasPrev := PreviousTransition(z, off, utc + 1);
    FirstInstantNotAfter(off, rounded, offsets, utc);
    var i := |offsets| - 1;
    while true
      invariant 0 <= i < |offsets| && LaterPassed(rounded, offsets, i, utc)
      decreases i
    {
      var inst := rounded - offsets[i];
      if hasPrev && inst < prev {
        NotInStretch(off, interval, offsets, i, prev, utc);
        r := RoundInterval(z, off, interval, prev - 1);
        assert offsets[i] in offsets;
        EarlierCase(off, interval, prev, utc, r, inst);
        return;
      }
      if utc >= inst {
        assert offsets[i] in offsets;
        SteadyCase(off, interval, if hasPrev then prev else -BIG, inst, utc);
        return inst;
      }
      i := i - 1;
    }
  }

  lemma NotShownCase(off: Clock, step: int, utc: int, offsets: seq<int>, r: int)
    requires Regular(off) && step > 0
    requires var m := FloorMillis(Wall(off, utc), step);
             && ListsInstants(off, m, offsets) && offsets == []
             && ((exists u :: Gap(off, u, m)) ==> Gap(off, r, m))
    ensures RoundsToInterval(off, step, utc, r)
  {
    var m := FloorMillis(Wall(off, utc), step);
    FloorMillisIsFloor(Wall(off, utc), step);
    var t := Reached(off, m, utc);
    assert Gap(off, t, m);
    GapExcludes(off, r, m, utc);
  }

  /** Some listed instant is not after utc, so the loop over the offsets never runs out. */
  lemma FirstInstantNotAfter(off: Clock, local: int, offsets: seq<int>, utc: int)
    requires Regular(off) && ListsInstants(off, local, offsets) && |offsets| > 0 && local <= Wall(off, utc)
    ensures local - offsets[0] <= utc
  {
    var shown := Reached(off, local, utc);
    assert offsets[0] in offsets && Wall(off, local - offsets[0]) == local;
    if Gap(off, shown, local) {
      GapExcludes(off, shown, local, local - offsets[0]);
    } else {
      assert off(shown) in offsets;
      var k :| 0 <= k < |offsets| && offsets[k] == off(shown);
    }
  }

  /** When the instants that show the multiple are before the stretch or after utc, the stretch has no boundary. */
  lemma NotInStretch(off: Clock, step: int, offsets: seq<int>, i: nat, prev: int, utc: int)
    requires Regular(off) && step > 0 && prev <= utc && Steady(off, prev, utc)
    requires var m := FloorMillis(Wall(off, utc), step);
             && ListsInstants(off, m, offsets)
             && i < |offsets| && m - offsets[i] < prev && LaterPassed(m, offsets, i, utc)
    ensures NoBoundary(off, step, prev - 1, utc)
  {
    var m := FloorMillis(Wall(off, utc), step);
    forall x | Wall(off, x) == m ensures x < prev || utc < x {
      var k :| 0 <= k < |offsets| && offsets[k] == off(x);
    }
    assert offsets[i] in offsets;
    StretchWithoutBoundary(off, step, prev, utc, m - offsets[i]);
  }

  /** A jump over a multiple misses a later boundary when the clock has reached the next multiple since. */
  lemma MissedBoundary(off: Clock, step: int, r: int, x: int, utc: int)
    requires Regular(off) && step > 0 && Gap(off, r, FloorMillis(Wall(off, utc), step)) && r < x <= utc
    requires FloorMillis(Wall(off, utc), step) + step <= Wall(off, x)
    ensures !NoBoundary(off, step, r, utc)
  {
    var m := FloorMillis(Wall(off, utc), step);
    FloorMillisIsFloor(Wall(off, utc), step);
    AfterChange(off, r, utc);
    var k: int :| m == k * step;
    assert m + step == (k + 1) * step;
    assert Multiple(m + step, step);
    var t := Climb(off, m + step, r, x);
    assert Wall(off, t) == m + step || Gap(off, t, m + step);
    assert Boundary(off, step, t);
  }

  /** The rounding is the last boundary up to utc exactly when it does not overshoot. */
  lemma OvershootsExactly(off: Clock, step: int, utc: int, r: int)
    requires Regular(off) && step > 0 && RoundsToInterval(off, step, utc, r)
    ensures NoBoundary(off, step, r, utc) <==> !Overshoots(off, step, utc)
  {
    var m := FloorMillis(Wall(off, utc), step);
    if Overshoots(off, step, utc) {
      var t, x :| Gap(off, t, m) && t < x <= utc && m + step <= Wall(off, x);
      GapUnique(off, r, t, m);
      MissedBoundary(off, step, r, x, utc);
    } else if Skipped(off, m) {
      GapCase(off, step, r, utc, m);
    }
  }

  /** There is one result. */
  lemma IntervalUnique(off: Clock, step: int, utc: int, r: int, s: int)
    requires Regular(off) && step > 0 && RoundsToInterval(off, step, utc, r) && RoundsToInterval(off, step, utc, s)
    ensures r == s
  {
    var m := FloorMillis(Wall(off, utc), step);
    if Skipped(off, m) {
      GapUnique(off, r, s, m);
    }
  }

  /** A clock with a one hour gap around the epoch and the overlap that undoes it 100 hours later. */
  ghost function GapThenOverlap(): Clock {
    x => if -HOUR / 2 <= x < 99 * HOUR + HOUR / 2 then HOUR else 0
  }

  /** There an interval of 100 hours is rounded to -0.5 hours at 99.5 hours, past the boundary at 99 hours. */
  lemma OvershotHappens(r: int)
    requires RoundsToInterval(GapThenOverlap(), 100 * HOUR, 99 * HOUR + HOUR / 2, r)
    ensures Regular(GapThenOverlap())
    ensures r == -HOUR / 2 && Boundary(GapThenOverlap(), 100 * HOUR, 99 * HOUR)
    ensures Overshoots(GapThenOverlap(), 100 * HOUR, 99 * HOUR + HOUR / 2)
  {
    var off, step, utc := GapThenOverlap(), 100 * HOUR, 99 * HOUR + HOUR / 2;
    forall t | IsChange(off, t) ensures t == -HOUR / 2 || t == utc {
    }
    assert 0 == 0 * step && 100 * HOUR == 1 * step;
    FloorUnique(Wall(off, utc), step, 0);
    assert Gap(off, -HOUR / 2, 0);
    GapUnique(off, r, -HOUR / 2, 0);
    assert Wall(off, 99 * HOUR) == 1 * step;
    assert Multiple(Wall(off, 99 * HOUR), step);
  }

  // ---------------------------------------------------------------- seconds, minutes and hours

  /** The last instant up to utc at which the clock shows a multiple of the step. */
  ghost predicate LastShown(off: Clock, step: int, utc: int, r: int)
    requires step > 0
  {
    && r <= utc
    && Multiple(Wall(off, r), step)
    && forall b :: r < b <= utc ==> !Multiple(Wall(off, b), step)
  }

  lemma LastShownUnique(off: Clock, step: int, utc: int, r: int, s: int)
    requires step > 0 && LastShown(off, step, utc, r) && LastShown(off, step, utc, s)
    ensures r == s
  {
  }

  /** truncateAsLocalTime: the last instant up to `instant` that shows the truncated local time. */
  method TruncateAsLocalTime(z: Zone, ghost off: Clock, unit: Unit, instant: int) returns (res: int, ok: bool)
    requires Keeps(z, off) && Regular(off) && (unit.Second? || unit.Minute? || unit.Hour?)
    requires -LIMIT - 1 <= instant <= LIMIT
    ensures var m := FloorMillis(Wall(off, instant), StepOf(unit));
            if ok then
              res <= instant && Wall(off, res) == m
              && (forall x :: Wall(off, x) == m && x <= instant ==> x <= res)
            else
              res == 0 && forall x :: Wall(off, x) == m ==> instant < x
  {
    assert OffsetAt(z, instant) == off(instant);
    var local := TruncateLocal(instant + OffsetAt(z, instant), unit);
    FloorMillisIsFloor(Wall(off, instant), StepOf(unit));
    var offsets := ValidOffsets(z, off, local);
    var i := |offsets| - 1;
    while i >= 0
      invariant -1 <= i < |offsets|
      invariant forall j :: i < j < |offsets| ==> instant < local - offsets[j]
    {
      assert offsets[i] in offsets;
      res := local - offsets[i];
      if res <= instant {
        forall x | Wall(off, x) == local && x <= instant ensures x <= res {
          var k :| 0 <= k < |offsets| && offsets[k] == off(x);
        }
        return res, true;
      }
      i := i - 1;
    }
    forall x | Wall(off, x) == local ensures instant < x {
      var k :| 0 <= k < |offsets| && offsets[k] == off(x);
    }
    return 0, false;
  }

  /**
   * Either utc is not an offset change, or it shows a multiple itself, or the last multiple before
   * it is the one its local time truncates to.
   */
  ghost predicate Plain(off: Clock, step: int, utc: int)
    requires step > 0
  {
    || !IsChange(off, utc)
    || FloorMillis(Wall(off, utc), step) == Wall(off, utc)
    || FloorMillis(Wall(off, utc), step) == FloorMillis(Wall(off, utc - 1), step)
  }

  /** Inside one stretch, the instant of the truncated local time is the last shown multiple. */
  lemma SteadyLastShown(off: Clock, step: int, start: int, utc: int)
    requires 0 < step && Steady(off, start, utc)
    requires start <= utc - (Wall(off, utc) - FloorMillis(Wall(off, utc), step))
    ensures LastShown(off, step, utc, utc - (Wall(off, utc) - FloorMillis(Wall(off, utc), step)))
  {
    var m := FloorMillis(Wall(off, utc), step);
    FloorMillisIsFloor(Wall(off, utc), step);
    var inst := utc - (Wall(off, utc) - m);
    SteadyWall(off, start, utc, inst);
    forall b | inst < b <= utc ensures !Multiple(Wall(off, b), step) {
      SteadyWall(off, start, utc, b);
      if Multiple(Wall(off, b), step) {
        MultiplesApart(m, Wall(off, b), step);
      }
    }
  }

  /** A stretch too short to show the truncated local time shows no multiple. */
  lemma SteadyNoneShown(off: Clock, step: int, start: int, utc: int)
    requires 0 < step && Steady(off, start, utc)
    requires utc - (Wall(off, utc) - FloorMillis(Wall(off, utc), step)) < start
    ensures forall b :: start <= b <= utc ==> !Multiple(Wall(off, b), step)
  {
    var m := FloorMillis(Wall(off, utc), step);
    FloorMillisIsFloor(Wall(off, utc), step);
    forall b | start <= b <= utc ensures !Multiple(Wall(off, b), step) {
      SteadyWall(off, start, utc, b);
      if Multiple(Wall(off, b), step) {
        MultiplesApart(m, Wall(off, b), step);
      }
    }
  }

  /** What truncateAsLocalTime returns for an instant. */
  ghost predicate Truncated(off: Clock, step: int, instant: int, res: int, ok: bool)
    requires step > 0
  {
    var m := FloorMillis(Wall(off, instant), step);
    if ok then res <= instant && Wall(off, res) == m && (forall x :: Wall(off, x) == m && x <= instant ==> x <= res)
    else res == 0 && forall x :: Wall(off, x) == m ==> instant < x
  }

  /** Without changes in between there is one offset. */
  lemma NoChangeIsSteady(off: Clock, a: int, b: int)
    requires forall t :: a < t <= b ==> !IsChange(off, t)
    ensures Steady(off, a, b)
  {
    forall x | a <= x <= b ensures off(x) == off(b) {
      if off(x) != off(b) {
        var t := SomeChange(off, x, b);
      }
    }
  }

  /** The last offset change before an instant. */
  ghost predicate LastChange(off: Clock, utc: int, prev: int) {
    prev < utc && IsChange(off, prev) && forall t :: prev < t < utc ==> !IsChange(off, t)
  }

  ghost predicate NoEarlierChange(off: Clock, utc: int) { forall t :: t < utc ==> !IsChange(off, t) }

  /** The last instant up to utc that shows a local time. */
  ghost predicate Latest(off: Clock, m: int, utc: int, r: int) {
    r <= utc && Wall(off, r) == m && forall x :: Wall(off, x) == m && x <= utc ==> x <= r
  }

  ghost predicate ShownSince(off: Clock, m: int, start: int, utc: int) {
    exists x :: start <= x <= utc && Wall(off, x) == m
  }

  ghost predicate ShownBy(off: Clock, m: int, utc: int) { exists x :: x <= utc && Wall(off, x) == m }

  /**
   * What rounding to seconds, minutes or hours returns: the last instant that shows the truncated
   * local time when there is one since the change before, or else the last multiple shown before that
   * change. Without a change before, the epoch stands for an instant that there is not.
   */
  ghost predicate SubDayOutcome(off: Clock, step: int, utc: int, r: int)
    requires step > 0
  {
    if NoEarlierChange(off, utc) then OutcomeAtStart(off, step, utc, r)
    else exists prev :: LastChange(off, utc, prev) && OutcomeSince(off, step, utc, prev, r)
  }

  ghost predicate OutcomeAtStart(off: Clock, step: int, utc: int, r: int)
    requires step > 0
  {
    var m := FloorMillis(Wall(off, utc), step);
    if ShownBy(off, m, utc) then Latest(off, m, utc, r) else r == 0
  }

  ghost predicate OutcomeSince(off: Clock, step: int, utc: int, prev: int, r: int)
    requires step > 0
  {
    var m := FloorMillis(Wall(off, utc), step);
    if ShownSince(off, m, prev, utc) then Latest(off, m, utc, r) else LastShown(off, step, prev - 1, r)
  }

  lemma LatestUnique(off: Clock, m: int, utc: int, r: int, s: int)
    requires Latest(off, m, utc, r) && Latest(off, m, utc, s)
    ensures r == s
  {
  }

  lemma LastChangeUnique(off: Clock, utc: int, p: int, q: int)
    requires LastChange(off, utc, p) && LastChange(off, utc, q)
    ensures p == q
  {
  }

  /** There is one result. */
  lemma SubDayUnique(off: Clock, step: int, utc: int, r: int, s: int)
    requires step > 0 && SubDayOutcome(off, step, utc, r) && SubDayOutcome(off, step, utc, s)
    ensures r == s
  {
    var m := FloorMillis(Wall(off, utc), step);
    if NoEarlierChange(off, utc) {
      if ShownBy(off, m, utc) {
        LatestUnique(off, m, utc, r, s);
      }
    } else {
      var p :| LastChange(off, utc, p) && OutcomeSince(off, step, utc, p, r);
      var q :| LastChange(off, utc, q) && OutcomeSince(off, step, utc, q, s);
      LastChangeUnique(off, utc, p, q);
      if ShownSince(off, m, p, utc) {
        LatestUnique(off, m, utc, r, s);
      } else {
        LastShownUnique(off, step, p - 1, r, s);
      }
    }
  }

  /** The change at utc is the first ever, and it jumps over the truncated local time of utc. */
  ghost predicate FirstChangeSkips(off: Clock, step: int, utc: int)
    requires step > 0
  {
    NoEarlierChange(off, utc) && Gap(off, utc, FloorMillis(Wall(off, utc), step))
  }

  lemma LastShownMultiple(off: Clock, step: int, utc: int, inst: int, res: int)
    requires step > 0 && LastShown(off, step, utc, inst) && inst <= res <= utc && Multiple(Wall(off, res), step)
    ensures res == inst
  {
  }

  /** When the last shown multiple is the truncated local time, that is what it was last shown at. */
  lemma LastIsLatest(off: Clock, step: int, utc: int, m: int, last: int, r: int)
    requires step > 0 && LastShown(off, step, utc, last) && Wall(off, last) == m && Latest(off, m, utc, r)
    ensures r == last
  {
    LastShownMultiple(off, step, utc, last, r);
  }

  /** Before utc by less than a step, if the offset stays the same: where the truncated local time is shown. */
  function Back(off: Clock, step: int, utc: int): int
    requires step > 0
  {
    utc - (Wall(off, utc) - FloorMillis(Wall(off, utc), step))
  }

  lemma BackShows(off: Clock, step: int, start: int, utc: int)
    requires step > 0 && start <= Back(off, step, utc) && forall t :: start < t <= utc ==> !IsChange(off, t)
    ensures utc - step < Back(off, step, utc) <= utc && LastShown(off, step, utc, Back(off, step, utc))
    ensures Wall(off, Back(off, step, utc)) == FloorMillis(Wall(off, utc), step)
  {
    FloorMillisIsFloor(Wall(off, utc), step);
    NoChangeIsSteady(off, start, utc);
    SteadyLastShown(off, step, start, utc);
    SteadyWall(off, start, utc, Back(off, step, utc));
  }

  /** At an instant that is no offset change, the last shown multiple is returned. */
  lemma NoChangeRounds(off: Clock, step: int, utc: int, r: int)
    requires step > 0 && SubDayOutcome(off, step, utc, r) && !IsChange(off, utc)
    ensures LastShown(off, step, utc, r)
  {
    var m, inst := FloorMillis(Wall(off, utc), step), Back(off, step, utc);
    if NoEarlierChange(off, utc) {
      BackShows(off, step, inst, utc);
      LastIsLatest(off, step, utc, m, inst, r);
    } else {
      var prev :| LastChange(off, utc, prev) && OutcomeSince(off, step, utc, prev, r);
      if prev <= inst {
        BackShows(off, step, prev, utc);
        LastIsLatest(off, step, utc, m, inst, r);
      } else {
        NoChangeIsSteady(off, prev, utc);
        SteadyNoneShown(off, step, prev, utc);
        FloorMillisIsFloor(Wall(off, utc), step);
      }
    }
  }

  /** Right before a change, the last shown multiple is less than a step away. */
  lemma LastBeforeChange(off: Clock, step: int, utc: int)
    requires Regular(off) && 0 < step <= HOUR && IsChange(off, utc)
    ensures var last := Back(off, step, utc - 1);
            && utc - 1 - step < last < utc && LastShown(off, step, utc - 1, last)
            && Wall(off, last) == FloorMillis(Wall(off, utc - 1), step)
    ensures forall t :: utc - 36 * HOUR <= t < utc ==> !IsChange(off, t)
  {
    FloorMillisIsFloor(Wall(off, utc - 1), step);
    BackShows(off, step, utc - 36 * HOUR, utc - 1);
  }

  /** At a change that shows no multiple itself, the last multiple up to it is the last one before it. */
  lemma LastUpToChange(off: Clock, step: int, utc: int, last: int)
    requires step > 0 && LastShown(off, step, utc - 1, last)
    requires Wall(off, utc) != FloorMillis(Wall(off, utc), step)
    ensures LastShown(off, step, utc, last)
  {
    FloorMillisIsFloor(Wall(off, utc), step);
    if Multiple(Wall(off, utc), step) {
      FloorUnique(Wall(off, utc), step, Wall(off, utc));
    }
  }

  /** At a change that shows a multiple, or truncates to the last one shown before it, that is returned. */
  lemma PlainRounds(off: Clock, step: int, utc: int, r: int)
    requires Regular(off) && 0 < step <= HOUR && SubDayOutcome(off, step, utc, r) && Plain(off, step, utc)
    ensures LastShown(off, step, utc, r)
  {
    if !IsChange(off, utc) {
      NoChangeRounds(off, step, utc, r);
    } else {
      var m := FloorMillis(Wall(off, utc), step);
      var last := if Wall(off, utc) == m then utc else Back(off, step, utc - 1);
      FloorMillisIsFloor(Wall(off, utc), step);
      LastBeforeChange(off, step, utc);
      if last < utc {
        LastUpToChange(off, step, utc, last);
      }
      ShownIsReturned(off, step, utc, m, last, r);
      LastIsLatest(off, step, utc, m, last, r);
    }
  }

  lemma ShownIsReturned(off: Clock, step: int, utc: int, m: int, x: int, r: int)
    requires step > 0 && SubDayOutcome(off, step, utc, r) && m == FloorMillis(Wall(off, utc), step) && x <= utc && Wall(off, x) == m
    requires forall t :: x < t < utc ==> !IsChange(off, t)
    ensures Latest(off, m, utc, r)
  {
    if !NoEarlierChange(off, utc) {
      var prev :| LastChange(off, utc, prev) && OutcomeSince(off, step, utc, prev, r);
      assert prev <= x;
    }
  }

  /** At any other change, the last shown multiple is another one than what is returned. */
  lemma OtherwiseMissed(off: Clock, step: int, utc: int, r: int)
    requires Regular(off) && 0 < step <= HOUR && SubDayOutcome(off, step, utc, r)
    requires !Plain(off, step, utc) && !FirstChangeSkips(off, step, utc)
    ensures r <= utc && Multiple(Wall(off, r), step) && r != Back(off, step, utc - 1)
  {
    var m, last := FloorMillis(Wall(off, utc), step), Back(off, step, utc - 1);
    FloorMillisIsFloor(Wall(off, utc), step);
    LastBeforeChange(off, step, utc);
    if NoEarlierChange(off, utc) {
      if !ShownBy(off, m, utc) {
        UnshownIsSkipped(off, step, utc);
      }
    } else {
      var prev :| LastChange(off, utc, prev) && OutcomeSince(off, step, utc, prev, r);
      assert prev < utc - 36 * HOUR;
      hide LastShown, Latest, ShownSince, LastChange, NoEarlierChange, FirstChangeSkips, SubDayOutcome, Back;
      MissedSince(off, step, utc, prev, r);
    }
  }

  lemma MissedSince(off: Clock, step: int, utc: int, prev: int, r: int)
    requires step > 0 && OutcomeSince(off, step, utc, prev, r) && !Plain(off, step, utc) && prev < Back(off, step, utc - 1)
    requires Wall(off, Back(off, step, utc - 1)) == FloorMillis(Wall(off, utc - 1), step) && prev < utc
    ensures r <= utc && Multiple(Wall(off, r), step) && r != Back(off, step, utc - 1)
  {
    FloorMillisIsFloor(Wall(off, utc), step);
    hide Back, Gap;
  }

  /** Without an earlier change, a truncated local time that was not shown lies in the gap. */
  lemma UnshownIsSkipped(off: Clock, step: int, utc: int)
    requires step > 0 && NoEarlierChange(off, utc) && Wall(off, utc) != FloorMillis(Wall(off, utc), step)
    requires !ShownBy(off, FloorMillis(Wall(off, utc), step), utc)
    ensures FirstChangeSkips(off, step, utc)
  {
    var m := FloorMillis(Wall(off, utc), step);
    FloorMillisIsFloor(Wall(off, utc), step);
    if m <= Wall(off, utc - 1) {
      var inst := utc - 1 - (Wall(off, utc - 1) - m);
      NoChangeIsSteady(off, inst, utc - 1);
      SteadyWall(off, inst, utc - 1, inst);
    }
  }

  /** A jump by the first change hides the truncated local time for good. */
  lemma SkippedIsUnshown(off: Clock, step: int, utc: int)
    requires step > 0 && FirstChangeSkips(off, step, utc)
    ensures !ShownBy(off, FloorMillis(Wall(off, utc), step), utc)
  {
    var m := FloorMillis(Wall(off, utc), step);
    if x :| x <= utc && Wall(off, x) == m {
      assert x < utc;
      NoChangeIsSteady(off, x, utc - 1);
      SteadyWall(off, x, utc - 1, x);
    }
  }

  /** The last multiple that was shown before the first change is that of the epoch. */
  ghost predicate EpochIsLast(off: Clock, step: int, utc: int)
    requires step > 0
  {
    0 < utc && Wall(off, 0) == FloorMillis(Wall(off, utc - 1), step)
  }

  /**
   * The last shown multiple is returned exactly at instants that are no offset change, that show a
   * multiple, or that truncate to the last one shown before the change; and at a first change after the
   * epoch which skips its own multiple when the last one shown happens to be that of the epoch.
   */
  lemma LastShownExactly(off: Clock, step: int, utc: int, r: int)
    requires Regular(off) && 0 < step <= HOUR && SubDayOutcome(off, step, utc, r)
    ensures LastShown(off, step, utc, r)
       <==> Plain(off, step, utc) || (FirstChangeSkips(off, step, utc) && EpochIsLast(off, step, utc))
  {
    if Plain(off, step, utc) {
      PlainRounds(off, step, utc, r);
    } else {
      var last := Back(off, step, utc - 1);
      LastBeforeChange(off, step, utc);
      LastUpToChange(off, step, utc, last);
      if LastShown(off, step, utc, r) {
        LastShownUnique(off, step, utc, r, last);
      }
      if FirstChangeSkips(off, step, utc) {
        SkippedIsUnshown(off, step, utc);
        assert r == 0;
        if 0 < utc {
          NoChangeIsSteady(off, if last < 0 then last else 0, utc - 1);
        }
      } else {
        OtherwiseMissed(off, step, utc, r);
      }
    }
  }

  /** What the result is in every case. */
  ghost predicate SubDayCase(off: Clock, step: int, utc: int, r: int)
    requires step > 0
  {
    if Plain(off, step, utc) then LastShown(off, step, utc, r)
    else if FirstChangeSkips(off, step, utc) then r == 0
    else r <= utc && Multiple(Wall(off, r), step) && !LastShown(off, step, utc, r)
  }

  lemma SubDayCases(off: Clock, step: int, utc: int, r: int)
    requires Regular(off) && 0 < step <= HOUR && SubDayOutcome(off, step, utc, r)
    ensures SubDayCase(off, step, utc, r)
  {
    LastShownExactly(off, step, utc, r);
    if Plain(off, step, utc) {
    } else if FirstChangeSkips(off, step, utc) {
      SkippedIsUnshown(off, step, utc);
    } else {
      OtherwiseMissed(off, step, utc, r);
    }
  }

  /** A clock that goes back half an hour and, 91.5 hours later, forward again from 2:00 to 2:30. */
  ghost function BackAndForth(): Clock {
    x => if -100 * HOUR <= x < -8 * HOUR - HOUR / 2 then 10 * HOUR + HOUR / 2 else 11 * HOUR
  }

  /** At 2:30 the hour of the first of these changes is returned, and not the one shown an hour before. */
  lemma EarlierHourReturned(r: int)
    requires SubDayOutcome(BackAndForth(), HOUR, -8 * HOUR - HOUR / 2, r)
    ensures Regular(BackAndForth())
    ensures r == -101 * HOUR && LastShown(BackAndForth(), HOUR, -8 * HOUR - HOUR / 2, -9 * HOUR - HOUR / 2)
  {
    var off, utc, prev := BackAndForth(), -8 * HOUR - HOUR / 2, -100 * HOUR;
    forall t | IsChange(off, t) ensures t == prev || t == utc {
    }
    FloorUnique(Wall(off, utc), HOUR, 2 * HOUR);
    assert Wall(off, utc - 1) == 2 * HOUR - 1;
    FloorUnique(Wall(off, utc - 1), HOUR, 1 * HOUR);
    LastBeforeChange(off, HOUR, utc);
    LastUpToChange(off, HOUR, utc, -9 * HOUR - HOUR / 2);
    assert LastChange(off, utc, prev);
    var p :| LastChange(off, utc, p) && OutcomeSince(off, HOUR, utc, p, r);
    LastChangeUnique(off, utc, p, prev);
    assert !ShownSince(off, 2 * HOUR, prev, utc);
    assert Wall(off, prev - 1) == -89 * HOUR - 1;
    FloorUnique(Wall(off, prev - 1), HOUR, -90 * HOUR);
    LastBeforeChange(off, HOUR, prev);
    LastShownUnique(off, HOUR, prev - 1, r, -101 * HOUR);
  }

  /** The last change that a zone had before an instant, if it had one. */
  ghost predicate Before(off: Clock, utc: int, prev: int, has: bool) {
    if has then LastChange(off, utc, prev) && -LIMIT <= prev else NoEarlierChange(off, utc)
  }

  lemma BeforeFound(z: Zone, off: Clock, utc: int, prev: int, has: bool)
    requires Keeps(z, off) && -LIMIT - 1 <= utc
    requires has ==> IsChange(off, prev) && -LIMIT <= prev < utc && Steady(off, prev, utc - 1)
    requires !has ==> Steady(off, -BIG, utc - 1)
    ensures Before(off, utc, prev, has)
  {
    var start := if has then prev else -BIG;
    forall t | start < t < utc ensures !IsChange(off, t) {
      assert off(t - 1) == off(utc - 1) == off(t);
    }
    forall t | t <= -BIG ensures !IsChange(off, t) {
      if IsChange(off, t) {
        ChangeInRange(z, off, t);
      }
    }
  }

  /** A turn of the loop that returns. */
  lemma TurnReturns(off: Clock, step: int, utc: int, res: int, ok: bool, prev: int, has: bool)
    requires step > 0 && Truncated(off, step, utc, res, ok) && Before(off, utc, prev, has)
    requires !has || (ok && prev <= res)
    ensures SubDayOutcome(off, step, utc, res)
  {
    var m := FloorMillis(Wall(off, utc), step);
    if has {
      assert ShownSince(off, m, prev, utc);
      assert OutcomeSince(off, step, utc, prev, res);
      assert !NoEarlierChange(off, utc);
    } else if ok {
      assert ShownBy(off, m, utc);
    }
  }

  /** A turn of the loop that goes back to the change before the instant. */
  lemma TurnGoesBack(off: Clock, step: int, utc: int, res: int, ok: bool, prev: int, r: int)
    requires step > 0 && Truncated(off, step, utc, res, ok) && Before(off, utc, prev, true)
    requires !(ok && prev <= res)
    requires LastShown(off, step, prev - 1, r)
    ensures SubDayOutcome(off, step, utc, r)
  {
    var m := FloorMillis(Wall(off, utc), step);
    assert !ShownSince(off, m, prev, utc);
    assert OutcomeSince(off, step, utc, prev, r);
    assert !NoEarlierChange(off, utc);
  }

  /** The turn after a step back returns: the stretch before the change is longer than any step. */
  lemma SecondTurnReturns(off: Clock, step: int, change: int, res: int, ok: bool, prev: int, has: bool)
    requires Regular(off) && 0 < step <= HOUR && IsChange(off, change)
    requires Truncated(off, step, change - 1, res, ok) && Before(off, change - 1, prev, has)
    ensures !has || (ok && prev <= res)
    ensures LastShown(off, step, change - 1, res)
  {
    LastBeforeChange(off, step, change);
    var inst := Back(off, step, change - 1);
    assert ok && inst <= res;
    if has {
      assert prev < change - 36 * HOUR;
    }
    TurnReturns(off, step, change - 1, res, ok, prev, has);
    NoChangeRounds(off, step, change - 1, res);
  }

  /** roundZoned for units below a day. */
  method RoundSubDay(z: Zone, ghost off: Clock, unit: Unit, utc: int) returns (truncated: int)
    requires Keeps(z, off) && Regular(off) && (unit.Second? || unit.Minute? || unit.Hour?)
    requires -LIMIT <= utc <= LIMIT
    ensures SubDayOutcome(off, StepOf(unit), utc, truncated)
  {
    hide SubDayOutcome, LastShown, Before;
    var instant := utc;
    ghost var step := StepOf(unit);
    var ok;
    var i := 0;
    while true
      invariant 0 <= i <= 1 && i < MAX_PERIOD_MERGE
      invariant i == 0 ==> instant == utc
      invariant i == 1 ==> IsChange(off, instant + 1) && -LIMIT <= instant + 1 <= LIMIT
      invariant i == 1 ==> forall r :: LastShown(off, step, instant, r) ==> SubDayOutcome(off, step, utc, r)
      decreases 1 - i
    {
      truncated, ok := TruncateAsLocalTime(z, off, unit, instant);
      var prev, hasPrev := PreviousTransition(z, off, instant);
      assert Truncated(off, step, instant, truncated, ok);
      BeforeFound(z, off, instant, prev, hasPrev);
      if i == 1 {
        SecondTurnReturns(off, step, instant + 1, truncated, ok, prev, hasPrev);
      }
      if !hasPrev || (ok && prev <= truncated) {
        if i == 0 {
          TurnReturns(off, step, instant, truncated, ok, prev, hasPrev);
        }
        return;
      }
      forall r | LastShown(off, step, prev - 1, r) ensures SubDayOutcome(off, step, utc, r) {
        TurnGoesBack(off, step, utc, truncated, ok, prev, r);
      }
      instant := prev - 1;
      i := i + 1;
    }
  }

  // ---------------------------------------------------------------- the whole rounding

  /** A prepared rounding, shifted by an offset. */
  datatype Prepared =
    | Calendar(unit: Unit, shift: int)
    | Fixed(interval: int, shift: int)
  {
    ghost predicate Valid() {
      match this
      case Calendar(unit, _) => unit.Valid()
      case Fixed(interval, _) => 0 < interval <= LIMIT
    }

    predicate SubDay() { Calendar? && (unit.Second? || unit.Minute? || unit.Hour?) }
  }

  /** What the rounding of an instant achieves, for each kind of rounding. */
  ghost predicate Outcome(off: Clock, p: Prepared, utc: int, r: int)
    requires p.Valid()
  {
    match p
    case Fixed(interval, _) => RoundsToInterval(off, interval, utc, r)
    case Calendar(unit, _) =>
      if unit.Second? || unit.Minute? || unit.Hour? then SubDayOutcome(off, StepOf(unit), utc, r)
      else RoundsToDay(off, unit, utc, r)
  }

  /** The branch of roundZoned for units of a day or more. */
  method RoundDay(z: Zone, ghost off: Clock, unit: Unit, utc: int) returns (r: int)
    requires Keeps(z, off) && Regular(off) && unit.Valid() && -LIMIT <= utc <= LIMIT
    ensures RoundsToDay(off, unit, utc, r)
  {
    assert OffsetAt(z, utc) == off(utc);
    var local := TruncateLocal(utc + OffsetAt(z, utc), unit);
    TruncateInRange(unit, Wall(off, utc));
    r := FirstTimeOnDay(z, off, local);
  }

  lemma TruncateInRange(unit: Unit, local: int)
    requires unit.Valid()
    ensures local - LIMIT <= TruncateLocal(local, unit) <= local
  {
    var f := x => TruncateLocal(x, unit);
    TruncateIsFloor(unit, f);
    assert f(local) == TruncateLocal(local, unit);
  }

  /** roundZoned, and dateRounding.round around it. */
  method Round(z: Zone, ghost off: Clock, p: Prepared, utc: int) returns (r: int)
    requires Keeps(z, off) && Regular(off) && p.Valid() && -LIMIT <= utc - p.shift <= LIMIT
    ensures Outcome(off, p, utc - p.shift, r - p.shift)
  {
    var zoned;
    if p.Fixed? {
      zoned := RoundInterval(z, off, p.interval, utc - p.shift);
    } else if p.SubDay() {
      zoned := RoundSubDay(z, off, p.unit, utc - p.shift);
    } else {
      zoned := RoundDay(z, off, p.unit, utc - p.shift);
    }
    r := zoned + p.shift;
  }

  /** The instant is the first offset change of its zone, before the epoch, and jumps over the truncated local time. */
  ghost predicate RoundsForward(off: Clock, p: Prepared, utc: int) {
    p.SubDay() && utc < 0 && FirstChangeSkips(off, StepOf(p.unit), utc)
  }

  /**
   * Rounding never returns an instant after its argument, except in the one case where it returns
   * the epoch for an instant before it.
   */
  lemma RoundNotAfter(off: Clock, p: Prepared, utc: int, r: int)
    requires Regular(off) && p.Valid() && Outcome(off, p, utc, r)
    ensures r <= utc <==> !RoundsForward(off, p, utc)
  {
    if p.Calendar? && !p.SubDay() {
      var f := x => TruncateLocal(x, p.unit);
      TruncateIsFloor(p.unit, f);
      assert f(Wall(off, utc)) <= Wall(off, utc);
      DayStartNotAfter(off, f(Wall(off, utc)), utc, r);
    } else if p.SubDay() {
      var step := StepOf(p.unit);
      SubDayCases(off, step, utc, r);
      if FirstChangeSkips(off, step, utc) {
        SkippedIsNotPlain(off, step, utc);
      }
    }
  }

  lemma SkippedIsNotPlain(off: Clock, step: int, utc: int)
    requires step > 0 && FirstChangeSkips(off, step, utc)
    ensures !Plain(off, step, utc)
  {
    var m := FloorMillis(Wall(off, utc), step);
    GapIsChange(off, utc, m);
    FloorMillisIsFloor(Wall(off, utc - 1), step);
  }

  lemma GapIsChange(off: Clock, t: int, m: int)
    requires Gap(off, t, m)
    ensures IsChange(off, t)
  {
  }

  /** The clock of a place that moved from local mean time to UTC in 1912, 16 minutes and 8 seconds forward. */
  ghost function MeanTimeUntil1912(): Clock {
    x => if x < -1830383032000 then -968000 else 0
  }

  /** At that very instant the hour rounding goes forward to the epoch. */
  lemma RoundsForwardHappens()
    ensures Regular(MeanTimeUntil1912())
    ensures RoundsForward(MeanTimeUntil1912(), Calendar(Hour, 0), -1830383032000)
  {
    var off := MeanTimeUntil1912();
    var t := -1830383032000;
    forall u | IsChange(off, u) ensures u == t {
    }
    assert Wall(off, t) == t && Wall(off, t - 1) == t - 1 - 968000;
    assert -1830384000000 == -508440 * HOUR;
    FloorUnique(t, HOUR, -1830384000000);
  }
}

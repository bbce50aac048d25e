/**
 * auto_date_histogram, internal/engine/aggs_auto_date_histogram.go: the finest rounding whose
 * buckets do not exceed a target, and the histogram it gives. Zones have a fixed offset here; the
 * roundings of aggs_dates.go are then the grids below.
 */
module AutoDateHistogram {
  import opened Clocks
  import opened GapFilling
  import opened Options
  import Rounding
  import Lists
  import Sorting

  // ---------------------------------------------------------------- grids without overlaps

  /** round is a monotone idempotent floor, and next goes from a key to the one that follows. */
  ghost predicate Tiles(g: Grid) {
    && Laws(g)
    && (forall x {:trigger g.round(x)} :: g.round(x) <= x && IsKey(g, g.round(x)))
    && (forall x, y {:trigger g.round(x), g.round(y)} :: x <= y ==> g.round(x) <= g.round(y))
  }

  // ---------------------------------------------------------------- roundings as grids

  /** originRounding.round: intervals counted from an origin. */
  function OriginRound(origin: int, step: int, utc: int): int
    requires step > 0
  {
    origin + Rounding.RoundKey(utc - origin, step) * step
  }

  function OriginGrid(origin: int, step: int): Grid
    requires step > 0
  {
    Grid(utc => OriginRound(origin, step, utc), utc => OriginRound(origin, step, utc) + step)
  }

  lemma OriginFloor(origin: int, step: int, x: int)
    requires step > 0
    ensures var r := OriginRound(origin, step, x);
            r <= x < r + step && Rounding.Multiple(r - origin, step)
  {
    Rounding.FloorMillisIsFloor(x - origin, step);
  }

  lemma OriginUnique(origin: int, step: int, x: int, r: int)
    requires step > 0 && Rounding.Multiple(r - origin, step) && r <= x < r + step
    ensures OriginRound(origin, step, x) == r
  {
    Rounding.FloorUnique(x - origin, step, r - origin);
  }

  lemma OneStep(m: int, step: int)
    requires step > 0 && Rounding.Multiple(m, step)
    ensures Rounding.Multiple(m + step, step)
  {
    var k: int :| m == k * step;
    assert m + step == (k + 1) * step;
  }

  lemma OriginMonotone(origin: int, step: int, x: int, y: int)
    requires step > 0 && x <= y
    ensures OriginRound(origin, step, x) <= OriginRound(origin, step, y)
  {
    OriginFloor(origin, step, x);
    OriginFloor(origin, step, y);
    hide OriginRound;
    var a, b := OriginRound(origin, step, x), OriginRound(origin, step, y);
    if b < a {
      Rounding.MultiplesApart(b - origin, a - origin, step);
    }
  }

  lemma OriginFollows(origin: int, step: int, k: int)
    requires step > 0 && OriginRound(origin, step, k) == k
    ensures Follows(OriginGrid(origin, step), k, k + step)
  {
    OriginFloor(origin, step, k);
    hide OriginRound;
    OneStep(k - origin, step);
    OriginUnique(origin, step, k + step, k + step);
    forall y | k < y < k + step ensures !IsKey(OriginGrid(origin, step), y) {
      OriginUnique(origin, step, y, k);
    }
  }

  lemma OriginLaws(origin: int, step: int)
    requires step > 0
    ensures Tiles(OriginGrid(origin, step))
  {
    hide OriginRound, Follows;
    var g := OriginGrid(origin, step);
    forall x ensures g.round(x) <= x && IsKey(g, g.round(x)) {
      OriginFloor(origin, step, x);
      OriginUnique(origin, step, g.round(x), g.round(x));
    }
    forall x, y | x <= y ensures g.round(x) <= g.round(y) {
      OriginMonotone(origin, step, x, y);
    }
    forall k | IsKey(g, k) ensures Follows(g, k, g.next(k)) {
      OriginFollows(origin, step, k);
    }
  }

  // ---------------------------------------------------------------- calendar units in a zone of fixed offset

  /** The length of a unit that has one. */
  function Length(unit: Rounding.Unit): (step: int)
    requires !unit.Coarse?
    ensures step > 0
  {
    match unit
    case Second => 1000
    case Minute => 60000
    case Hour => HOUR
    case Day => DAY
    case Week => 7 * DAY
  }

  /** roundZoned where the clock is always `offset` ahead. */
  function ZoneRound(unit: Rounding.Unit, offset: int, utc: int): int {
    Rounding.TruncateLocal(utc + offset, unit) - offset
  }

  /** nextZoned */
  function ZoneNext(unit: Rounding.Unit, offset: int, utc: int): int {
    if unit.Day? || unit.Week? || unit.Coarse? then
      Rounding.NextMidnight(Rounding.TruncateLocal(utc + offset, unit), unit) - offset
    else
      var next := ZoneRound(unit, offset, utc + Length(unit));
      if utc < next then next else ZoneRound(unit, offset, utc + 2 * Length(unit))
  }

  function CalendarGrid(unit: Rounding.Unit, offset: int): Grid {
    Grid(utc => ZoneRound(unit, offset, utc), utc => ZoneNext(unit, offset, utc))
  }

  /** The days of a week are counted from a Monday. */
  function Origin(unit: Rounding.Unit, offset: int): int {
    if unit.Week? then -offset - 3 * DAY else -offset
  }

  /** A calendar unit of fixed length is an interval from an origin. */
  lemma ZoneIsOrigin(unit: Rounding.Unit, offset: int, utc: int)
    requires !unit.Coarse?
    ensures ZoneRound(unit, offset, utc) == OriginRound(Origin(unit, offset), Length(unit), utc)
  {
    if unit.Week? {
      Rounding.WeekIsShiftedFloor(utc + offset);
    }
  }

  lemma ZoneNextIsStep(unit: Rounding.Unit, offset: int, k: int)
    requires !unit.Coarse? && ZoneRound(unit, offset, k) == k
    ensures ZoneNext(unit, offset, k) == k + Length(unit)
  {
    var origin, step := Origin(unit, offset), Length(unit);
    if !(unit.Day? || unit.Week?) {
      ZoneIsOrigin(unit, offset, k);
      ZoneIsOrigin(unit, offset, k + step);
      hide OriginRound, ZoneRound;
      OriginFloor(origin, step, k);
      OneStep(k - origin, step);
      OriginUnique(origin, step, k + step, k + step);
    }
  }

  lemma ZoneFollows(unit: Rounding.Unit, offset: int, k: int)
    requires !unit.Coarse? && ZoneRound(unit, offset, k) == k
    ensures Follows(CalendarGrid(unit, offset), k, ZoneNext(unit, offset, k))
  {
    hide ZoneRound, ZoneNext, OriginRound;
    var origin, step := Origin(unit, offset), Length(unit);
    ZoneNextIsStep(unit, offset, k);
    ZoneIsOrigin(unit, offset, k);
    ZoneIsOrigin(unit, offset, k + step);
    OriginFollows(origin, step, k);
    assert IsKey(OriginGrid(origin, step), k + step);
    forall y | k < y < k + step ensures !IsKey(CalendarGrid(unit, offset), y) {
      ZoneIsOrigin(unit, offset, y);
      assert !IsKey(OriginGrid(origin, step), y);
    }
  }

  lemma CalendarLaws(unit: Rounding.Unit, offset: int)
    requires unit.Valid()
    ensures Tiles(CalendarGrid(unit, offset))
  {
    if unit.Coarse? {
      CoarseLaws(unit, offset);
    } else {
      FixedLengthLaws(unit, offset);
    }
  }

  lemma CoarseFollows(unit: Rounding.Unit, offset: int, k: int)
    requires unit.Coarse? && unit.Valid() && ZoneRound(unit, offset, k) == k
    ensures Follows(CalendarGrid(unit, offset), k, ZoneNext(unit, offset, k))
  {
    var g, m := CalendarGrid(unit, offset), k + offset;
    assert Rounding.IsNext(unit.floor, m, unit.follow(m));
    hide Rounding.FloorLike, Rounding.FollowLike;
    forall j | k < j < unit.follow(m) - offset ensures !IsKey(g, j) {
      assert unit.floor(j + offset) != j + offset;
    }
    assert unit.floor(unit.follow(m)) == unit.follow(m);
  }

  lemma CoarseFloor(unit: Rounding.Unit, offset: int, x: int, y: int)
    requires unit.Coarse? && unit.Valid()
    ensures ZoneRound(unit, offset, x) <= x
    ensures ZoneRound(unit, offset, ZoneRound(unit, offset, x)) == ZoneRound(unit, offset, x)
    ensures x <= y ==> ZoneRound(unit, offset, x) <= ZoneRound(unit, offset, y)
  {
    var floor := unit.floor;
    assert floor(floor(x + offset)) == floor(x + offset) <= x + offset;
    assert floor(x + offset) - offset + offset == floor(x + offset);
  }

  /** Units without a fixed length, of whose floor and successor this is all that is known. */
  lemma CoarseLaws(unit: Rounding.Unit, offset: int)
    requires unit.Coarse? && unit.Valid()
    ensures Tiles(CalendarGrid(unit, offset))
  {
    hide ZoneRound, ZoneNext, Follows;
    var g := CalendarGrid(unit, offset);
    forall k | IsKey(g, k) ensures Follows(g, k, g.next(k)) {
      CoarseFollows(unit, offset, k);
    }
    forall x ensures g.round(x) <= x && IsKey(g, g.round(x)) {
      CoarseFloor(unit, offset, x, x);
    }
    forall x, y | x <= y ensures g.round(x) <= g.round(y) {
      CoarseFloor(unit, offset, x, y);
    }
  }

  lemma FixedLengthLaws(unit: Rounding.Unit, offset: int)
    requires !unit.Coarse?
    ensures Tiles(CalendarGrid(unit, offset))
  {
    hide ZoneRound, ZoneNext, OriginRound, Follows, Origin, Length;
    var g, origin, step := CalendarGrid(unit, offset), Origin(unit, offset), Length(unit);
    forall x ensures g.round(x) <= x && IsKey(g, g.round(x)) {
      ZoneIsOrigin(unit, offset, x);
      OriginFloor(origin, step, x);
      OriginUnique(origin, step, g.round(x), g.round(x));
      ZoneIsOrigin(unit, offset, g.round(x));
    }
    forall x, y | x <= y ensures g.round(x) <= g.round(y) {
      ZoneIsOrigin(unit, offset, x);
      ZoneIsOrigin(unit, offset, y);
      OriginMonotone(origin, step, x, y);
    }
    forall k | IsKey(g, k) ensures Follows(g, k, g.next(k)) {
      ZoneFollows(unit, offset, k);
    }
  }

  // ---------------------------------------------------------------- the rounding of a fixed zone is the grid

  ghost predicate Fixed(off: Clock, offset: int) { forall x {:trigger off(x)} :: off(x) == offset }

  /** With a clock that never changes, the rounding of any calendar unit is truncation of the local time. */
  lemma FixedZoneRounds(off: Clock, offset: int, unit: Rounding.Unit, utc: int, r: int)
    requires Fixed(off, offset) && unit.Valid() && Rounding.Outcome(off, Rounding.Calendar(unit, 0), utc, r)
    ensures r == ZoneRound(unit, offset, utc)
  {
    if unit.Second? || unit.Minute? || unit.Hour? {
      var step := Rounding.StepOf(unit);
      var inst := utc - (Wall(off, utc) - Rounding.FloorMillis(Wall(off, utc), step));
      assert !IsChange(off, utc);
      Rounding.FloorMillisIsFloor(Wall(off, utc), step);
      Rounding.SteadyLastShown(off, step, inst, utc);
      Rounding.LastShownUnique(off, step, utc, r, inst);
    } else {
      var midnight := Rounding.TruncateLocal(Wall(off, utc), unit);
      assert Wall(off, midnight - offset) == midnight;
    }
  }

  // ---------------------------------------------------------------- tiers and their bucket counts

  /** A calendar rounding, or several units of one counted from where the data starts. */
  datatype Tier = Calendar(grid: Grid) | Multiple(base: Grid, step: int)

  ghost predicate Good(t: Tier) {
    match t
    case Calendar(grid) => Tiles(grid)
    case Multiple(base, step) => Tiles(base) && step > 0
  }

  function Make(t: Tier, min: int): Grid
    requires t.Multiple? ==> t.step > 0
  {
    match t
    case Calendar(grid) => grid
    case Multiple(base, step) => OriginGrid(base.round(min), step)
  }

  lemma MakeLaws(t: Tier, min: int)
    requires Good(t)
    ensures Tiles(Make(t, min))
  {
    if t.Multiple? {
      OriginLaws(t.base.round(min), t.step);
    }
  }

  /** All keys from that of the least value to that of the greatest. */
  ghost function Span(g: Grid, min: int, max: int): seq<int>
    requires Tiles(g)
  {
    Keys(g, g.round(min), g.round(max) + 1)
  }

  const COUNT_CAP := 1_000_000

  /** The number of buckets of a tier, except that a calendar tier stops counting above a million. */
  ghost function TierCount(t: Tier, min: int, max: int): int
    requires Good(t)
  {
    MakeLaws(t, min);
    var n := |Span(Make(t, min), min, max)|;
    if t.Calendar? && n > COUNT_CAP then COUNT_CAP + 1 else n
  }

  method AutoTierCount(t: Tier, min: int, max: int) returns (count: int)
    requires Good(t) && min <= max
    ensures count == TierCount(t, min, max)
  {
    hide Keys, OriginRound;
    MakeLaws(t, min);
    var r := Make(t, min);
    var rMin, rMax := r.round(min), r.round(max);
    assert rMin <= rMax && IsKey(r, rMin) && IsKey(r, rMax);
    KeysUpTo(r, rMin, rMax);
    NoKeys(r, rMax);
    if t.Multiple? {
      MultiplesBetween(t.base.round(min), t.step, min, max);
      return Rounding.TruncDiv(rMax - rMin, t.step) + 1;
    }
    count := 1;
    var k := rMin;
    while k < rMax
      invariant IsKey(r, k) && k <= rMax && 1 <= count <= COUNT_CAP
      invariant count + |Keys(r, k, rMax)| == |Span(r, min, max)|
      decreases rMax - k
    {
      KeysFrom(r, k, rMax);
      NextIsLeast(r, k, rMax);
      assert Follows(r, k, r.next(k));
      k := r.next(k);
      count := count + 1;
      if count > COUNT_CAP {
        break;
      }
    }
  }

  lemma MultiplesBetween(origin: int, step: int, min: int, max: int)
    requires step > 0 && min <= max && Tiles(OriginGrid(origin, step))
    ensures var g := OriginGrid(origin, step);
            |Span(g, min, max)| == Rounding.TruncDiv(g.round(max) - g.round(min), step) + 1
  {
    hide Keys;
    var g := OriginGrid(origin, step);
    var a, b := g.round(min), g.round(max);
    OriginFloor(origin, step, min);
    OriginFloor(origin, step, max);
    var i: int :| a - origin == i * step;
    var j: int :| b - origin == j * step;
    assert b - a == (j - i) * step;
    assert a <= b && IsKey(g, a) && IsKey(g, b);
    Rounding.MulMonotone(j + 1, i, step);
    assert (j + 1) * step == j * step + step;
    CountSteps(origin, step, a, j - i);
    KeysUpTo(g, a, b);
    Quotient(j - i, step);
  }

  lemma Quotient(n: nat, step: int)
    requires step > 0
    ensures Rounding.TruncDiv(n * step, step) == n
  {
    assert n * step >= 0;
    var q := n * step / step;
    Rounding.DivisionBounds(n * step, step);
    Rounding.MulMonotone(q + 1, n, step);
    Rounding.MulMonotone(n + 1, q, step);
    assert (q + 1) * step == q * step + step && (n + 1) * step == n * step + step;
  }

  lemma {:induction false} CountSteps(origin: int, step: int, a: int, n: nat)
    requires step > 0 && Tiles(OriginGrid(origin, step)) && IsKey(OriginGrid(origin, step), a)
    ensures |Keys(OriginGrid(origin, step), a, a + n * step)| == n
    decreases n
  {
    var g := OriginGrid(origin, step);
    if n > 0 {
      assert n * step == (n - 1) * step + step && (n - 1) * step >= 0;
      KeysFrom(g, a, a + n * step);
      assert g.next(a) == a + step;
      CountSteps(origin, step, a + step, n - 1);
    } else {
      assert n * step == 0;
    }
  }

  // ---------------------------------------------------------------- choosing a tier

  ghost predicate AllGood(tiers: seq<Tier>) { forall i :: 0 <= i < |tiers| ==> Good(tiers[i]) }

  /** The first tier from minTier on whose buckets do not exceed the target, or the last tier. */
  ghost predicate Chosen(tiers: seq<Tier>, minTier: nat, target: int, min: int, max: int, i: nat)
    requires AllGood(tiers) && minTier < |tiers|
  {
    && i < |tiers|
    && (forall j :: minTier <= j < i && j < |tiers| - 1 ==> TierCount(tiers[j], min, max) > target)
    && ((minTier <= i && TierCount(tiers[i], min, max) <= target)
        || (i == |tiers| - 1 && forall j :: minTier <= j < |tiers| ==> TierCount(tiers[j], min, max) > target))
  }

  method ChooseTier(tiers: seq<Tier>, minTier: nat, target: int, min: int, max: int) returns (tierIdx: nat)
    requires AllGood(tiers) && minTier < |tiers| && min <= max
    ensures Chosen(tiers, minTier, target, min, max, tierIdx)
  {
    hide TierCount;
    tierIdx := |tiers| - 1;
    for i := minTier to |tiers|
      invariant tierIdx == |tiers| - 1
      invariant forall j :: minTier <= j < i ==> TierCount(tiers[j], min, max) > target
    {
      var count := AutoTierCount(tiers[i], min, max);
      if count <= target {
        tierIdx := i;
        return;
      }
    }
  }

  /** For targets up to a million the counts that are compared are exact. */
  lemma ExactUpToCap(t: Tier, min: int, max: int, target: int)
    requires Good(t) && target <= COUNT_CAP && Tiles(Make(t, min))
    ensures TierCount(t, min, max) <= target <==> |Span(Make(t, min), min, max)| <= target
  {
  }

  // ---------------------------------------------------------------- the histogram

  function CountAt(g: Grid, values: seq<int>, k: int): nat {
    if values == [] then 0
    else CountAt(g, values[..|values| - 1], k) + if g.round(values[|values| - 1]) == k then 1 else 0
  }

  ghost function Positions(g: Grid, values: seq<int>, k: int): set<nat> {
    set i: nat | i < |values| && g.round(values[i]) == k
  }

  /** Every value counts once, for its key. */
  lemma {:induction false} CountedOnce(g: Grid, values: seq<int>, k: int)
    ensures CountAt(g, values, k) == |Positions(g, values, k)|
  {
    if values != [] {
      var n := |values| - 1;
      CountedOnce(g, values[..n], k);
      assert Positions(g, values, k) == Positions(g, values[..n], k) + if g.round(values[n]) == k then {n} else {};
    }
  }

  lemma {:induction false} CountedKey(g: Grid, values: seq<int>, k: int)
    ensures CountAt(g, values, k) > 0 <==> exists i :: 0 <= i < |values| && g.round(values[i]) == k
  {
    if values != [] {
      var n := |values| - 1;
      CountedKey(g, values[..n], k);
      assert forall i :: 0 <= i < n ==> values[..n][i] == values[i];
      if CountAt(g, values[..n], k) > 0 {
        var i :| 0 <= i < n && g.round(values[..n][i]) == k;
        assert g.round(values[i]) == k;
      }
      if exists i :: 0 <= i < |values| && g.round(values[i]) == k {
        var i :| 0 <= i < |values| && g.round(values[i]) == k;
        assert i < n ==> g.round(values[..n][i]) == k;
      }
    }
  }

  ghost predicate Extremes(values: seq<int>, min: int, max: int) {
    min in values && max in values && forall v :: v in values ==> min <= v <= max
  }

  method MinMax(values: seq<int>) returns (min: int, max: int)
    requires values != []
    ensures Extremes(values, min, max)
  {
    min, max := values[0], values[0];
    for i := 0 to |values|
      invariant min in values && max in values
      invariant forall j :: 0 <= j < i ==> min <= values[j] <= max
    {
      if i == 0 || values[i] < min {
        min := values[i];
      }
      if i == 0 || values[i] > max {
        max := values[i];
      }
    }
  }

  /** The groups count the values by key; keys lists them. */
  ghost predicate Groups(g: Grid, values: seq<int>, groups: map<int, nat>, keys: seq<int>) {
    && Lists.Distinct(keys) && (forall k :: k in keys <==> k in groups)
    && (forall k :: k in groups <==> CountAt(g, values, k) > 0)
    && forall k :: k in groups ==> groups[k] == CountAt(g, values, k)
  }

  method GroupValues(g: Grid, values: seq<int>, limit: nat) returns (groups: map<int, nat>, keys: seq<int>, full: bool)
    ensures !full ==> Groups(g, values, groups, keys)
    ensures full ==> exists n :: 0 <= n <= |values| && Groups(g, values[..n], groups, keys) && |keys| > limit
  {
    groups, keys, full := map[], [], false;
    for n := 0 to |values|
      invariant Groups(g, values[..n], groups, keys) && !full
    {
      var key := g.round(values[n]);
      assert values[..n + 1][..n] == values[..n];
      if key !in groups {
        keys := keys + [key];
        groups := groups[key := 1];
        if |keys| > limit {
          full := true;
          return;
        }
      } else {
        groups := groups[key := groups[key] + 1];
      }
    }
    assert values[..|values|] == values;
  }

  function Ascends(): (int, int) -> bool { (a, b) => a < b }

  /** The buckets of the groups in order of their keys. */
  method SortedBuckets(g: Grid, values: seq<int>, groups: map<int, nat>, keys: seq<int>) returns (buckets: seq<Bucket>)
    requires Tiles(g) && Groups(g, values, groups, keys)
    ensures Ordered(g, buckets) && |buckets| == |keys|
    ensures forall b :: b in buckets <==> b.docCount == CountAt(g, values, b.key) > 0
  {
    hide CountAt, Laws, Ordered;
    var sorted := Sorting.Sort(Ascends(), keys);
    Sorting.SortMembers(Ascends(), keys);
    assert forall k :: k in sorted ==> k in groups;
    buckets := [];
    for i := 0 to |sorted|
      invariant |buckets| == i
      invariant forall j :: 0 <= j < i ==> sorted[j] in groups && buckets[j] == Bucket(sorted[j], groups[sorted[j]])
    {
      assert sorted[i] in sorted;
      buckets := buckets + [Bucket(sorted[i], groups[sorted[i]])];
    }
    SortedOrdered(g, values, groups, keys, buckets);
    SortedMembers(g, values, groups, keys, buckets);
  }

  ghost predicate ListedBy(groups: map<int, nat>, sorted: seq<int>, buckets: seq<Bucket>) {
    |buckets| == |sorted|
    && forall j :: 0 <= j < |sorted| ==> sorted[j] in groups && buckets[j] == Bucket(sorted[j], groups[sorted[j]])
  }

  lemma SortedOrdered(g: Grid, values: seq<int>, groups: map<int, nat>, keys: seq<int>, buckets: seq<Bucket>)
    requires Tiles(g) && Groups(g, values, groups, keys) && ListedBy(groups, Sorting.Sort(Ascends(), keys), buckets)
    ensures Ordered(g, buckets)
  {
    hide CountAt, Laws;
    var sorted := Sorting.Sort(Ascends(), keys);
    Sorting.SortAscends(Ascends(), keys);
    Sorting.SortMembers(Ascends(), keys);
    forall i | 0 <= i < |buckets| ensures IsKey(g, buckets[i].key) {
      assert sorted[i] in sorted;
      CountedIsKey(g, values, buckets[i].key);
    }
  }

  lemma SortedMembers(g: Grid, values: seq<int>, groups: map<int, nat>, keys: seq<int>, buckets: seq<Bucket>)
    requires Groups(g, values, groups, keys) && ListedBy(groups, Sorting.Sort(Ascends(), keys), buckets)
    ensures forall b :: b in buckets <==> b.docCount == CountAt(g, values, b.key) > 0
  {
    hide CountAt;
    var sorted := Sorting.Sort(Ascends(), keys);
    Sorting.SortMembers(Ascends(), keys);
    forall b ensures b in buckets <==> b.docCount == CountAt(g, values, b.key) > 0 {
      if b.key in sorted {
        var i :| 0 <= i < |sorted| && sorted[i] == b.key;
        assert buckets[i].key == b.key;
      }
      if b in buckets {
        var i :| 0 <= i < |buckets| && buckets[i] == b;
        assert sorted[i] in sorted;
      }
    }
  }

  lemma CountedIsKey(g: Grid, values: seq<int>, k: int)
    requires Tiles(g) && CountAt(g, values, k) > 0
    ensures IsKey(g, k)
  {
    CountedKey(g, values, k);
    var i :| 0 <= i < |values| && g.round(values[i]) == k;
    var v := values[i];
    assert IsKey(g, g.round(v));
  }

  /** The first and the last bucket are those of the least and the greatest value. */
  lemma EndsOfBuckets(g: Grid, values: seq<int>, min: int, max: int, buckets: seq<Bucket>)
    requires Tiles(g) && Ordered(g, buckets) && Extremes(values, min, max)
    requires forall b :: b in buckets <==> b.docCount == CountAt(g, values, b.key) > 0
    ensures buckets != [] && buckets[0].key == g.round(min) && buckets[|buckets| - 1].key == g.round(max)
  {
    HasBucket(g, values, min, buckets);
    HasBucket(g, values, max, buckets);
    InBetween(g, values, min, max, buckets[0]);
    InBetween(g, values, min, max, buckets[|buckets| - 1]);
  }

  lemma HasBucket(g: Grid, values: seq<int>, v: int, buckets: seq<Bucket>)
    requires v in values && forall b :: b in buckets <==> b.docCount == CountAt(g, values, b.key) > 0
    ensures exists i :: 0 <= i < |buckets| && buckets[i].key == g.round(v)
  {
    CountedKey(g, values, g.round(v));
    var n :| 0 <= n < |values| && values[n] == v;
    assert Bucket(g.round(v), CountAt(g, values, g.round(v))) in buckets;
  }

  lemma InBetween(g: Grid, values: seq<int>, min: int, max: int, b: Bucket)
    requires Tiles(g) && Extremes(values, min, max) && b.docCount == CountAt(g, values, b.key) > 0
    ensures g.round(min) <= b.key <= g.round(max)
  {
    CountedKey(g, values, b.key);
    var i :| 0 <= i < |values| && g.round(values[i]) == b.key;
    var v := values[i];
    assert v in values && g.round(min) <= g.round(v) <= g.round(max);
  }

  lemma {:induction false} SetSize(ks: seq<int>)
    ensures |set k | k in ks| <= |ks|
  {
    if ks != [] {
      var n := |ks| - 1;
      SetSize(ks[..n]);
      assert ks == ks[..n] + [ks[n]];
      assert (set k | k in ks) == (set k | k in ks[..n]) + {ks[n]};
    }
  }

  lemma {:induction false} DistinctSize(ks: seq<int>)
    requires Lists.Distinct(ks)
    ensures |set k | k in ks| == |ks|
  {
    if ks != [] {
      var n := |ks| - 1;
      DistinctSize(ks[..n]);
      assert (set k | k in ks) == (set k | k in ks[..n]) + {ks[n]};
    }
  }

  /** No more groups than there are keys in the span. */
  lemma GroupsFit(g: Grid, values: seq<int>, min: int, max: int, n: nat, groups: map<int, nat>, keys: seq<int>)
    requires Tiles(g) && Extremes(values, min, max) && n <= |values| && Groups(g, values[..n], groups, keys)
    ensures |keys| <= |Span(g, min, max)|
  {
    KeysExact(g, g.round(min), g.round(max) + 1);
    forall k | k in keys ensures k in Span(g, min, max) {
      CountedKey(g, values[..n], k);
      var i :| 0 <= i < n && g.round(values[..n][i]) == k;
      var v := values[i];
      assert v in values && g.round(min) <= g.round(v) <= g.round(max) && IsKey(g, g.round(v));
    }
    DistinctSize(keys);
    SetSize(Span(g, min, max));
    Lists.SubsetSize((set k | k in keys), (set k | k in Span(g, min, max)));
  }

  /** The buckets of the whole span with the counts of the values. */
  ghost predicate Histogram(g: Grid, values: seq<int>, min: int, max: int, out: seq<Bucket>)
    requires Tiles(g)
  {
    KeysOf(out) == Span(g, min, max) && forall i :: 0 <= i < |out| ==> out[i].docCount == CountAt(g, values, out[i].key)
  }

  method Bucketed(g: Grid, values: seq<int>, min: int, max: int, limit: nat) returns (r: Option<seq<Bucket>>)
    requires Tiles(g) && Extremes(values, min, max)
    ensures r.Some? <==> |Span(g, min, max)| <= limit
    ensures r.Some? ==> Histogram(g, values, min, max, r.value)
  {
    hide CountAt, Keys, Groups, Extremes, KeysOf;
    var groups, keys, full := GroupValues(g, values, limit);
    if full {
      ghost var n :| 0 <= n <= |values| && Groups(g, values[..n], groups, keys) && |keys| > limit;
      GroupsFit(g, values, min, max, n, groups, keys);
      return None;
    }
    var buckets := SortedBuckets(g, values, groups, keys);
    EndsOfBuckets(g, values, min, max, buckets);
    var out, over := AddBuckets(g, [], buckets, limit);
    if over {
      return None;
    }
    NoBuckets();
    assert out[0..] == out && [] + Span(g, min, max) == Span(g, min, max);
    KeysExact(g, g.round(min), g.round(max) + 1);
    CountsKept(g, values, buckets, out);
    return Some(out);
  }

  lemma CountsKept(g: Grid, values: seq<int>, buckets: seq<Bucket>, out: seq<Bucket>)
    requires KeepsOnly(buckets, out) && (forall i, j :: 0 <= i < j < |out| ==> KeysOf(out)[i] < KeysOf(out)[j])
    requires forall b :: b in buckets <==> b.docCount == CountAt(g, values, b.key) > 0
    ensures forall i :: 0 <= i < |out| ==> out[i].docCount == CountAt(g, values, out[i].key)
  {
    forall i | 0 <= i < |out| ensures out[i].docCount == CountAt(g, values, out[i].key) {
      var b := out[i];
      assert b in out;
      if CountAt(g, values, b.key) > 0 {
        var kept := Bucket(b.key, CountAt(g, values, b.key));
        assert kept in buckets && kept in out;
        var j :| 0 <= j < |out| && out[j] == kept;
        assert KeysOf(out)[j] == KeysOf(out)[i];
      }
    }
  }

  /** What a request gives: the tier and its histogram, or the number of buckets that is too high. */
  datatype Result = Ok(tier: nat, buckets: seq<Bucket>) | TooManyBuckets(tier: nat)

  /**
   * The histogram of the chosen tier over the span of the values, with as many buckets as the tier
   * was counted to have.
   */
  method CollectAutoDateHistogram(tiers: seq<Tier>, minTier: nat, target: int, values: seq<int>, limit: nat) returns (r: Result)
    requires AllGood(tiers) && minTier < |tiers|
    ensures values == [] ==> r == Ok(minTier, [])
    ensures values != [] ==> exists min, max ::
              && Extremes(values, min, max) && Chosen(tiers, minTier, target, min, max, r.tier)
              && Tiles(Make(tiers[r.tier], min))
              && (r.Ok? <==> |Span(Make(tiers[r.tier], min), min, max)| <= limit)
              && (r.Ok? ==> Histogram(Make(tiers[r.tier], min), values, min, max, r.buckets))
  {
    if values == [] {
      return Ok(minTier, []);
    }
    var min, max := MinMax(values);
    var tierIdx := ChooseTier(tiers, minTier, target, min, max);
    MakeLaws(tiers[tierIdx], min);
    var g := Make(tiers[tierIdx], min);
    var out := Bucketed(g, values, min, max, limit);
    r := if out.Some? then Ok(tierIdx, out.value) else TooManyBuckets(tierIdx);
  }

  /**
   * With a target of at most a million: the number of buckets is the count of the tier, it is at most
   * the target whenever some permitted tier fits, and every finer permitted tier would exceed it.
   */
  lemma FinestThatFits(tiers: seq<Tier>, minTier: nat, target: int, values: seq<int>, min: int, max: int, i: nat, out: seq<Bucket>)
    requires AllGood(tiers) && minTier < |tiers| && target <= COUNT_CAP
    requires Chosen(tiers, minTier, target, min, max, i) && Tiles(Make(tiers[i], min)) && Histogram(Make(tiers[i], min), values, min, max, out)
    ensures |out| == |Span(Make(tiers[i], min), min, max)| && (|out| <= COUNT_CAP ==> |out| == TierCount(tiers[i], min, max))
    ensures |out| <= target <==> exists j :: minTier <= j < |tiers| && TierCount(tiers[j], min, max) <= target
    ensures forall j :: minTier <= j < i ==> TierCount(tiers[j], min, max) > target
  {
    ExactUpToCap(tiers[i], min, max, target);
    assert |KeysOf(out)| == |out|;
    hide TierCount;
    if exists j :: minTier <= j < |tiers| && TierCount(tiers[j], min, max) <= target {
      assert TierCount(tiers[i], min, max) <= target;
    }
  }
}


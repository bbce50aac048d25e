/**
 * Wall clocks, internal/engine/aggs_dates.go: a clock gives the offset from UTC at every instant.
 *
 * Instants, offsets and local times are integers in milliseconds; a local time is the epoch
 * milliseconds of the same reading in UTC. The source keeps offsets in seconds and multiplies.
 */
module Clocks {

  const HOUR := 3600000
  const DAY := 24 * HOUR
  const BIG := 0x4000_0000_0000_0000      // 1 << 62, the source's open end
  const LIMIT := 0x1000_0000_0000_0000    // instants, zone bounds and intervals handled here
  const WIDE := 3 * LIMIT                 // local times derived from them
  const MAX_OFFSET := 18 * HOUR

  type Clock = int -> int

  /** localOf: the reading of the clock at an instant. */
  function Wall(off: Clock, utc: int): int { utc + off(utc) }

  ghost predicate IsChange(off: Clock, t: int) { off(t - 1) != off(t) }

  /** Offsets stay within 18 hours. */
  ghost predicate Bounded(off: Clock) {
    forall x :: -MAX_OFFSET <= off(x) <= MAX_OFFSET
  }

  /** Offset changes are more than 36 hours apart. */
  ghost predicate Spaced(off: Clock) {
    forall t, u :: IsChange(off, t) && IsChange(off, u) && t < u ==> u - t > 36 * HOUR
  }

  ghost predicate Regular(off: Clock) { Bounded(off) && Spaced(off) }

  lemma {:induction false} SomeChange(off: Clock, a: int, b: int) returns (t: int)
    requires a <= b && off(a) != off(b)
    ensures a < t <= b && IsChange(off, t)
    decreases b - a
  {
    if IsChange(off, b) {
      t := b;
    } else {
      t := SomeChange(off, a, b - 1);
    }
  }

  /** From an offset change on, the clock never shows less than right after the change. */
  lemma AfterChange(off: Clock, t: int, x: int)
    requires Regular(off) && IsChange(off, t) && t <= x
    ensures Wall(off, t) <= Wall(off, x)
  {
    if off(t) != off(x) {
      var u := SomeChange(off, t, x);
    }
  }

  /** Before an offset change, the clock never shows more than right before the change. */
  lemma BeforeChange(off: Clock, t: int, x: int)
    requires Regular(off) && IsChange(off, t) && x < t
    ensures Wall(off, x) <= Wall(off, t - 1)
  {
    if off(x) != off(t - 1) {
      var u := SomeChange(off, x, t - 1);
    }
  }

  /** Where the clock passes a reading between two instants: the discrete intermediate value theorem. */
  lemma {:induction false} Climb(off: Clock, m: int, y: int, x: int) returns (t: int)
    requires y <= x && Wall(off, y) < m <= Wall(off, x)
    ensures y < t <= x && Wall(off, t - 1) < m <= Wall(off, t)
    decreases x - y
  {
    if Wall(off, x - 1) < m {
      t := x;
    } else {
      t := Climb(off, m, y, x - 1);
    }
  }

  /** The change at t jumps over the reading m. */
  ghost predicate Gap(off: Clock, t: int, m: int) { Wall(off, t - 1) < m < Wall(off, t) }

  /** Every reading the clock has passed was shown or jumped over. */
  lemma Reached(off: Clock, m: int, x: int) returns (t: int)
    requires Bounded(off) && m <= Wall(off, x)
    ensures t <= x && (Wall(off, t) == m || Gap(off, t, m))
  {
    t := Climb(off, m, m - MAX_OFFSET - 1, x);
  }

  /** A reading that is jumped over is never shown; before the jump the clock shows less, after it more. */
  lemma GapExcludes(off: Clock, t: int, m: int, x: int)
    requires Regular(off) && Gap(off, t, m)
    ensures x < t ==> Wall(off, x) < m
    ensures t <= x ==> m < Wall(off, x)
  {
    if x < t {
      BeforeChange(off, t, x);
    } else {
      AfterChange(off, t, x);
    }
  }

  lemma GapUnique(off: Clock, t: int, u: int, m: int)
    requires Regular(off) && Gap(off, t, m) && Gap(off, u, m)
    ensures t == u
  {
    if t < u {
      GapExcludes(off, t, m, u - 1);
    } else if u < t {
      GapExcludes(off, u, m, t - 1);
    }
  }

  // ---------------------------------------------------------------- periods of one offset

  datatype Period = Period(start: int, end: int, offset: int)

  /** p is the longest stretch around an instant with one offset; +-BIG stands for an open end. */
  ghost predicate IsPeriod(off: Clock, utc: int, p: Period) {
    && -BIG <= p.start <= utc < p.end <= BIG
    && (forall x :: p.start <= x < p.end ==> off(x) == p.offset)
    && (p.start > -BIG ==> IsChange(off, p.start))
    && (p.end < BIG ==> IsChange(off, p.end))
  }

  lemma PeriodStartsAtChange(off: Clock, at: int, p: Period)
    requires IsPeriod(off, at, p) && IsChange(off, at)
    ensures p.start == at
  {
    assert p.start < at ==> off(at - 1) == p.offset == off(at);
  }

  lemma NoChangeInside(off: Clock, at: int, p: Period, t: int)
    requires IsPeriod(off, at, p) && IsChange(off, t)
    ensures t <= p.start || p.end <= t
  {
    assert p.start < t < p.end ==> off(t - 1) == p.offset == off(t);
  }
}

/**
 * Zones and their queries. A zone is a finite list of periods; neighbouring periods may share an
 * offset, as when only an abbreviation changes, so the list is not the list of offset changes.
 */
module Zones {
  import opened Clocks

  const WINDOW := 26 * HOUR
  const MAX_PERIOD_MERGE := 1000

  datatype Span = Span(start: int, offset: int)

  /** The offset before the first bound and the spans that follow. */
  datatype Zone = Zone(initial: int, spans: seq<Span>) {
    ghost predicate Valid() {
      && (forall i, j :: 0 <= i < j < |spans| ==> spans[i].start < spans[j].start)
      && (forall i :: 0 <= i < |spans| ==> -LIMIT <= spans[i].start <= LIMIT)
    }

    /** The offset of the k-th period; period 0 has no beginning. */
    function Offset(k: nat): int
      requires k <= |spans|
    {
      if k == 0 then initial else spans[k - 1].offset
    }

    function Start(k: nat): int
      requires k <= |spans|
    {
      if k == 0 then -BIG else spans[k - 1].start
    }

    function End(k: nat): int
      requires k <= |spans|
    {
      if k == |spans| then BIG else spans[k].start
    }
  }

  /** The number of spans among the first `upto` that have started by an instant. */
  function PeriodIndex(z: Zone, utc: int, upto: nat): (k: nat)
    requires upto <= |z.spans|
    ensures k <= upto
    ensures k > 0 ==> z.spans[k - 1].start <= utc
    ensures k < upto ==> utc < z.spans[k].start
  {
    if upto == 0 then 0
    else if z.spans[upto - 1].start <= utc then upto
    else PeriodIndex(z, utc, upto - 1)
  }

  function OffsetAt(z: Zone, utc: int): int {
    z.Offset(PeriodIndex(z, utc, |z.spans|))
  }

  /** No more than 1000 neighbouring periods share an offset. */
  ghost predicate RunsShort(z: Zone) {
    forall lo, hi :: 0 <= lo <= hi <= |z.spans| && SameOffsets(z, lo, hi) ==> hi - lo < MAX_PERIOD_MERGE
  }

  ghost predicate SameOffsets(z: Zone, lo: nat, hi: nat)
    requires hi <= |z.spans|
  {
    forall k :: lo <= k <= hi ==> z.Offset(k) == z.Offset(hi)
  }

  /** off is the clock of the zone. */
  ghost predicate Keeps(z: Zone, off: Clock) {
    && z.Valid()
    && RunsShort(z)
    && forall x {:trigger OffsetAt(z, x)} :: off(x) == OffsetAt(z, x)
  }

  lemma BoundsOrdered(z: Zone, i: nat, j: nat)
    requires z.Valid() && i <= |z.spans| && j <= |z.spans|
    ensures i < j ==> z.End(i) <= z.Start(j)
  {
  }

  lemma IndexUnique(z: Zone, utc: int, k: nat)
    requires z.Valid() && k <= |z.spans|
    requires k > 0 ==> z.spans[k - 1].start <= utc
    requires k < |z.spans| ==> utc < z.spans[k].start
    ensures PeriodIndex(z, utc, |z.spans|) == k
  {
  }

  lemma OffsetBetween(z: Zone, x: int, lo: nat, hi: nat)
    requires z.Valid() && lo <= hi <= |z.spans| && SameOffsets(z, lo, hi)
    requires z.Start(lo) <= x < z.End(hi)
    ensures OffsetAt(z, x) == z.Offset(hi)
  {
    var k := PeriodIndex(z, x, |z.spans|);
    BoundsOrdered(z, k, lo);
    BoundsOrdered(z, hi, k);
  }

  /** The first loop of periodAt: back over neighbours with the offset of period k. */
  method MergeBack(z: Zone, k: nat) returns (start: int, ghost lo: nat)
    requires z.Valid() && RunsShort(z) && k <= |z.spans|
    ensures lo <= k && start == z.Start(lo) && SameOffsets(z, lo, k)
    ensures lo > 0 ==> z.Offset(lo - 1) != z.Offset(k)
  {
    var off := z.Offset(k);
    start, lo := z.Start(k), k;
    var i := 0;
    while start > -BIG && i < MAX_PERIOD_MERGE
      invariant lo <= k && start == z.Start(lo) && SameOffsets(z, lo, k) && i == k - lo
      decreases lo
    {
      IndexUnique(z, start - 1, lo - 1);
      var prev := PeriodIndex(z, start - 1, |z.spans|);
      if z.Offset(prev) != off {
        break;
      }
      lo := lo - 1;
      start := z.Start(prev);
      i := i + 1;
    }
  }

  /** The second loop of periodAt: forward over neighbours with the offset of period k. */
  method MergeForward(z: Zone, k: nat) returns (end: int, ghost hi: nat)
    requires z.Valid() && RunsShort(z) && k <= |z.spans|
    ensures k <= hi <= |z.spans| && end == z.End(hi) && SameOffsets(z, k, hi)
    ensures hi < |z.spans| ==> z.Offset(hi + 1) != z.Offset(k)
  {
    var off := z.Offset(k);
    end, hi := z.End(k), k;
    var i := 0;
    while end < BIG && i < MAX_PERIOD_MERGE
      invariant k <= hi <= |z.spans| && end == z.End(hi) && SameOffsets(z, k, hi) && i == hi - k
      decreases |z.spans| - hi
    {
      IndexUnique(z, end, hi + 1);
      var next := PeriodIndex(z, end, |z.spans|);
      if z.Offset(next) != off {
        break;
      }
      hi := hi + 1;
      end := z.End(next);
      i := i + 1;
    }
  }

  /** periodAt finds the longest stretch of one offset around an instant. */
  method PeriodAt(z: Zone, ghost off: Clock, utc: int) returns (p: Period)
    requires Keeps(z, off) && -BIG < utc < BIG
    ensures IsPeriod(off, utc, p)
  {
    var k := PeriodIndex(z, utc, |z.spans|);
    ghost var lo, hi;
    var start, end;
    start, lo := MergeBack(z, k);
    end, hi := MergeForward(z, k);
    p := Period(start, end, z.Offset(k));
    RunIsPeriod(z, off, utc, k, lo, hi);
  }

  /** The bound between two periods of different offsets is an offset change. */
  lemma BoundIsChange(z: Zone, off: Clock, k: nat)
    requires Keeps(z, off) && k < |z.spans| && z.Offset(k) != z.Offset(k + 1)
    ensures IsChange(off, z.spans[k].start)
  {
    IndexUnique(z, z.spans[k].start - 1, k);
    IndexUnique(z, z.spans[k].start, k + 1);
    assert OffsetAt(z, z.spans[k].start - 1) != OffsetAt(z, z.spans[k].start);
  }

  lemma RunContains(z: Zone, utc: int, k: nat, lo: nat, hi: nat)
    requires z.Valid() && -BIG < utc < BIG && k == PeriodIndex(z, utc, |z.spans|)
    requires lo <= k <= hi <= |z.spans|
    ensures -BIG <= z.Start(lo) <= utc < z.End(hi) <= BIG
  {
    BoundsOrdered(z, lo, k);
    BoundsOrdered(z, k, hi);
  }

  lemma RunIsPeriod(z: Zone, off: Clock, utc: int, k: nat, lo: nat, hi: nat)
    requires Keeps(z, off) && -BIG < utc < BIG && k == PeriodIndex(z, utc, |z.spans|)
    requires lo <= k <= hi <= |z.spans| && SameOffsets(z, lo, k) && SameOffsets(z, k, hi)
    requires lo > 0 ==> z.Offset(lo - 1) != z.Offset(k)
    requires hi < |z.spans| ==> z.Offset(hi + 1) != z.Offset(k)
    ensures IsPeriod(off, utc, Period(z.Start(lo), z.End(hi), z.Offset(k)))
  {
    RunContains(z, utc, k, lo, hi);
    assert SameOffsets(z, lo, hi);
    forall x | z.Start(lo) <= x < z.End(hi) ensures off(x) == z.Offset(k) {
      OffsetBetween(z, x, lo, hi);
    }
    if lo > 0 {
      BoundIsChange(z, off, lo - 1);
    }
    if hi < |z.spans| {
      BoundIsChange(z, off, hi);
    }
  }

  lemma ChangeInRange(z: Zone, off: Clock, t: int)
    requires Keeps(z, off) && IsChange(off, t)
    ensures -LIMIT <= t <= LIMIT
  {
    var k, j := PeriodIndex(z, t - 1, |z.spans|), PeriodIndex(z, t, |z.spans|);
    assert OffsetAt(z, t - 1) != OffsetAt(z, t);
    BoundsOrdered(z, k, j);
    BoundsOrdered(z, j, k);
  }

  // ---------------------------------------------------------------- instants that show a local time

  /** The offsets at which a local time occurs before `upto`, in order of instant. */
  ghost predicate Listing(off: Clock, local: int, out: seq<int>, upto: int) {
    && (forall i, j :: 0 <= i < j < |out| ==> local - out[i] < local - out[j])
    && (forall o :: o in out ==> off(local - o) == o && local - o < upto)
    && (forall x :: Wall(off, x) == local && x < upto ==> off(x) in out)
  }

  /** All the offsets at which a local time occurs, in order of instant. */
  ghost predicate ListsInstants(off: Clock, local: int, out: seq<int>) {
    && (forall i, j :: 0 <= i < j < |out| ==> local - out[i] < local - out[j])
    && (forall o :: o in out ==> off(local - o) == o)
    && (forall x :: Wall(off, x) == local ==> off(x) in out)
  }

  ghost predicate NotShownBefore(off: Clock, local: int, at: int) {
    forall x :: Wall(off, x) == local ==> at <= x
  }

  /** Reading one more period extends the listing to its end. */
  lemma ListingGrows(off: Clock, local: int, out: seq<int>, at: int, p: Period)
    requires IsPeriod(off, at, p) && Listing(off, local, out, at)
    requires p.start == at || NotShownBefore(off, local, at)
    ensures var inst := local - p.offset;
            Listing(off, local, if p.start <= inst < p.end then out + [p.offset] else out, p.end)
  {
    var inst := local - p.offset;
    var out' := if p.start <= inst < p.end then out + [p.offset] else out;
    if p.start <= inst < p.end {
      assert Wall(off, inst) == local;
    }
    forall x | Wall(off, x) == local && x < p.end ensures off(x) in out' {
    }
    forall i, j | 0 <= i < j < |out'| ensures local - out'[i] < local - out'[j] {
      assert out'[i] in out;
    }
  }

  lemma ShownNearby(off: Clock, local: int)
    requires Bounded(off)
    ensures NotShownBefore(off, local, local - WINDOW)
    ensures forall x :: Wall(off, x) == local ==> x <= local + MAX_OFFSET
    ensures forall u :: Gap(off, u, local) ==> local - MAX_OFFSET <= u <= local + MAX_OFFSET
  {
  }

  lemma ListingDone(off: Clock, local: int, out: seq<int>, upto: int)
    requires Bounded(off) && Listing(off, local, out, upto) && local + MAX_OFFSET < upto
    ensures ListsInstants(off, local, out)
  {
  }

  /** validOffsets lists exactly the offsets at which a local time occurs. */
  method ValidOffsets(z: Zone, ghost off: Clock, local: int) returns (out: seq<int>)
    requires Keeps(z, off) && Regular(off) && -WIDE <= local <= WIDE
    ensures ListsInstants(off, local, out)
  {
    out := [];
    var seen: set<int> := {};
    var at := local - WINDOW;
    var i := 0;
    ShownNearby(off, local);
    while at <= local + WINDOW && i < MAX_PERIOD_MERGE
      invariant local - WINDOW <= at < BIG
      invariant if i == 0 then at == local - WINDOW && seen == {} else IsChange(off, at)
      invariant i <= 3
      invariant i >= 2 ==> local - WINDOW + 36 * HOUR < at
      invariant i >= 3 ==> local - WINDOW + 72 * HOUR < at
      invariant forall s :: s in seen ==> s < at
      invariant Listing(off, local, out, at)
    {
      var p := PeriodAt(z, off, at);
      if i > 0 {
        PeriodStartsAtChange(off, at, p);
      }
      ListingGrows(off, local, out, at, p);
      if p.start !in seen {
        seen := seen + {p.start};
        var inst := local - p.offset;
        if inst >= p.start && inst < p.end {
          out := out + [p.offset];
        }
      }
      if p.end >= BIG {
        ListingDone(off, local, out, p.end);
        return;
      }
      NextChange(off, at, p);
      at := p.end;
      i := i + 1;
    }
    ListingDone(off, local, out, at);
  }

  lemma NextChange(off: Clock, at: int, p: Period)
    requires Spaced(off) && IsPeriod(off, at, p) && p.end < BIG
    ensures IsChange(off, p.end)
    ensures IsChange(off, at) ==> at + 36 * HOUR < p.end
  {
  }

  lemma NoGapLeft(off: Clock, local: int, upto: int)
    requires Bounded(off) && local + MAX_OFFSET < upto
    requires forall u :: Gap(off, u, local) ==> upto <= u
    ensures forall u :: !Gap(off, u, local)
  {
    ShownNearby(off, local);
  }

  lemma GapNotPassed(off: Clock, local: int, at: int, p: Period)
    requires IsPeriod(off, at, p)
    ensures forall u :: Gap(off, u, local) && at < u ==> p.end <= u
  {
    forall u | Gap(off, u, local) && at < u ensures p.end <= u {
      NoChangeInside(off, at, p, u);
    }
  }

  lemma GapTest(off: Clock, local: int, at: int, before: Period, after: Period)
    requires IsPeriod(off, at, before) && IsPeriod(off, before.end, after)
    ensures Gap(off, before.end, local) <==>
            after.offset > before.offset
            && local >= before.end + before.offset && local < before.end + after.offset
  {
    assert off(before.end - 1) == before.offset && off(before.end) == after.offset;
  }

  /** gapTransition: when a change jumps over the local time, the instant of that change. */
  method GapTransition(z: Zone, ghost off: Clock, local: int) returns (t: int)
    requires Keeps(z, off) && Regular(off) && -WIDE <= local <= WIDE
    ensures (exists u :: Gap(off, u, local)) ==> Gap(off, t, local)
  {
    ShownNearby(off, local);
    ghost var at := local - WINDOW;
    var before := PeriodAt(z, off, local - WINDOW);
    GapNotPassed(off, local, at, before);
    var i := 0;
    while before.end < BIG && before.end <= local + WINDOW && i < MAX_PERIOD_MERGE
      invariant IsPeriod(off, at, before) && local - WINDOW <= at
      invariant if i == 0 then at == local - WINDOW else IsChange(off, at)
      invariant i <= 3
      invariant i >= 2 ==> local - WINDOW + 36 * HOUR < at
      invariant i >= 3 ==> local - WINDOW + 72 * HOUR < at
      invariant forall u :: Gap(off, u, local) ==> before.end <= u
      decreases MAX_PERIOD_MERGE - i
    {
      var after := PeriodAt(z, off, before.end);
      GapTest(off, local, at, before, after);
      if after.offset > before.offset && local >= before.end + before.offset && local < before.end + after.offset {
        return before.end;
      }
      GapNotPassed(off, local, before.end, after);
      NextChange(off, at, before);
      at := before.end;
      before := after;
      i := i + 1;
    }
    NoGapLeft(off, local, before.end);
    t := local - OffsetAt(z, local);
  }

  /** One offset from a to b. */
  ghost predicate Steady(off: Clock, a: int, b: int) {
    forall x :: a <= x <= b ==> off(x) == off(b)
  }

  /** previousTransition: the last offset change strictly before an instant, if there is one. */
  method PreviousTransition(z: Zone, ghost off: Clock, utc: int) returns (t: int, has: bool)
    requires Keeps(z, off) && -BIG < utc - 1 < BIG
    ensures has ==> IsChange(off, t) && -LIMIT <= t < utc && Steady(off, t, utc - 1)
    ensures !has ==> Steady(off, -BIG, utc - 1)
  {
    var p := PeriodAt(z, off, utc - 1);
    if p.start <= -BIG {
      return 0, false;
    }
    ChangeInRange(z, off, p.start);
    return p.start, true;
  }
}

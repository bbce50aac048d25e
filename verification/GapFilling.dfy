/**
 * Empty buckets between the keys of a date histogram: fillDateHistogram in
 * internal/engine/aggs_hist.go, over any rounding whose keys are listed by its next. Which roundings
 * of internal/engine/aggs_dates.go these are is the subject of the module NextRounding.
 */
module GapFilling {
  import opened Options

  /** round and next of a rounding. */
  datatype Grid = Grid(round: int -> int, next: int -> int)

  ghost predicate IsKey(g: Grid, k: int) { g.round(k) == k }

  /** next goes from a key to the least one above it. */
  ghost predicate Laws(g: Grid) {
    forall k {:trigger g.next(k)} :: IsKey(g, k) ==> Follows(g, k, g.next(k))
  }

  ghost predicate Follows(g: Grid, k: int, n: int) {
    k < n && IsKey(g, n) && forall j {:trigger g.round(j)} :: k < j < n ==> !IsKey(g, j)
  }

  // ---------------------------------------------------------------- stretches of keys

  /** The keys from a on, below e. */
  ghost function Keys(g: Grid, a: int, e: int): (ks: seq<int>)
    requires Laws(g) && IsKey(g, a)
    decreases if a < e then e - a else 0
  {
    if a >= e then [] else [a] + Keys(g, g.next(a), e)
  }

  lemma NextIsLeast(g: Grid, a: int, k: int)
    requires Laws(g) && IsKey(g, a) && IsKey(g, k) && a < k
    ensures g.next(a) <= k
  {
    assert Follows(g, a, g.next(a));
  }

  /** Exactly the keys in between, in order and once each. */
  lemma {:induction false} KeysExact(g: Grid, a: int, e: int)
    requires Laws(g) && IsKey(g, a)
    ensures forall k :: k in Keys(g, a, e) <==> a <= k < e && IsKey(g, k)
    ensures forall i, j :: 0 <= i < j < |Keys(g, a, e)| ==> Keys(g, a, e)[i] < Keys(g, a, e)[j]
    decreases if a < e then e - a else 0
  {
    if a < e {
      var n := g.next(a);
      assert Follows(g, a, n);
      KeysExact(g, n, e);
      var rest := Keys(g, n, e);
      forall k ensures k in Keys(g, a, e) <==> a <= k < e && IsKey(g, k) {
        if IsKey(g, k) && a < k {
          NextIsLeast(g, a, k);
        }
      }
      forall j | 0 <= j < |rest| ensures a < rest[j] {
        assert rest[j] in rest;
      }
    }
  }

  lemma {:induction false} KeysConcat(g: Grid, a: int, m: int, e: int)
    requires Laws(g) && IsKey(g, a) && IsKey(g, m) && a <= m <= e
    ensures Keys(g, a, m) + Keys(g, m, e) == Keys(g, a, e)
    decreases m - a
  {
    if a < m {
      NextIsLeast(g, a, m);
      assert Follows(g, a, g.next(a));
      KeysConcat(g, g.next(a), m, e);
      assert [a] + Keys(g, g.next(a), m) + Keys(g, m, e) == [a] + (Keys(g, g.next(a), m) + Keys(g, m, e));
    } else {
      assert Keys(g, a, m) == [];
    }
  }

  lemma NoKeys(g: Grid, a: int)
    requires Laws(g) && IsKey(g, a)
    ensures Keys(g, a, a) == []
  {
  }

  lemma KeysFrom(g: Grid, a: int, e: int)
    requires Laws(g) && IsKey(g, a) && a < e
    ensures IsKey(g, g.next(a)) && Keys(g, a, e) == [a] + Keys(g, g.next(a), e)
  {
    assert Follows(g, a, g.next(a));
  }

  lemma OneKey(g: Grid, k: int)
    requires Laws(g) && IsKey(g, k)
    ensures Keys(g, k, k + 1) == [k]
  {
    assert Follows(g, k, g.next(k));
  }

  lemma KeysUpTo(g: Grid, a: int, m: int)
    requires Laws(g) && IsKey(g, a) && IsKey(g, m) && a <= m
    ensures Keys(g, a, m) + [m] == Keys(g, a, m + 1)
  {
    KeysConcat(g, a, m, m + 1);
    OneKey(g, m);
  }

  // ---------------------------------------------------------------- buckets

  datatype Bucket = Bucket(key: int, docCount: nat)

  function KeysOf(bs: seq<Bucket>): (ks: seq<int>)
    ensures |ks| == |bs| && forall i :: 0 <= i < |bs| ==> ks[i] == bs[i].key
  {
    if bs == [] then [] else KeysOf(bs[..|bs| - 1]) + [bs[|bs| - 1].key]
  }

  lemma KeysOfNext(bs: seq<Bucket>, b: Bucket)
    ensures KeysOf(bs + [b]) == KeysOf(bs) + [b.key]
  {
    assert (bs + [b])[..|bs|] == bs;
  }

  ghost predicate Ordered(g: Grid, buckets: seq<Bucket>) {
    && (forall i :: 0 <= i < |buckets| ==> IsKey(g, buckets[i].key))
    && forall i, j :: 0 <= i < j < |buckets| ==> buckets[i].key < buckets[j].key
  }

  /** out has the buckets that are there and empty ones for the rest. */
  ghost predicate KeepsOnly(buckets: seq<Bucket>, out: seq<Bucket>) {
    && (forall b :: b in buckets ==> b in out)
    && forall b :: b in out ==> b in buckets || b.docCount == 0
  }

  /** Empty buckets for the keys from k on, below e, until there are more than the limit. */
  method AddEmpty(g: Grid, before: seq<Bucket>, from: int, e: int, limit: nat) returns (out: seq<Bucket>, full: bool)
    requires Laws(g) && IsKey(g, from) && |before| <= limit
    ensures full <==> |before| + |Keys(g, from, e)| > limit
    ensures !full ==> before <= out && KeysOf(out) == KeysOf(before) + Keys(g, from, e)
    ensures !full ==> forall b :: b in out[|before|..] ==> b.docCount == 0
  {
    out, full := before, false;
    var k := from;
    assert KeysOf(before) + [] == KeysOf(before);
    while k < e
      invariant IsKey(g, k) && before <= out && |out| <= limit
      invariant KeysOf(out) + Keys(g, k, e) == KeysOf(before) + Keys(g, from, e)
      invariant forall b :: b in out[|before|..] ==> b.docCount == 0
      decreases e - k
    {
      Step(KeysOf(out), k, Keys(g, g.next(k), e));
      if |out| + 1 > limit {
        full := true;
        return;
      }
      KeysOfNext(out, Bucket(k, 0));
      assert (out + [Bucket(k, 0)])[|before|..] == out[|before|..] + [Bucket(k, 0)];
      out := out + [Bucket(k, 0)];
      assert Follows(g, k, g.next(k));
      k := g.next(k);
    }
    assert KeysOf(out) + [] == KeysOf(out);
  }

  lemma Step(ks: seq<int>, k: int, rest: seq<int>)
    ensures ks + ([k] + rest) == ks + [k] + rest
  {
  }

  /** The buckets in order, with empty ones between them. */
  method AddBuckets(g: Grid, before: seq<Bucket>, buckets: seq<Bucket>, limit: nat) returns (out: seq<Bucket>, full: bool)
    requires Laws(g) && Ordered(g, buckets) && buckets != [] && |before| <= limit
    ensures var first, last := buckets[0].key, buckets[|buckets| - 1].key;
            && (full <==> |before| + |Keys(g, first, last + 1)| > limit)
            && (!full ==> before <= out && KeysOf(out) == KeysOf(before) + Keys(g, first, last + 1)
                          && KeepsOnly(buckets, out[|before|..]))
  {
    hide Keys, KeysOf;
    out, full := before, false;
    var first := buckets[0].key;
    for i := 0 to |buckets|
      invariant before <= out && |out| <= limit && !full
      invariant KeepsOnly(buckets[..i], out[|before|..])
      invariant i == 0 ==> out == before
      invariant i > 0 ==> KeysOf(out) == KeysOf(before) + Keys(g, first, buckets[i - 1].key + 1)
    {
      var b := buckets[i];
      if i > 0 {
        Between(g, buckets, i);
        MoreFull(g, buckets, i, limit);
        ghost var so := out;
        out, full := AddEmpty(g, out, g.next(buckets[i - 1].key), b.key, limit);
        if full {
          return;
        }
        KeepsEmpty(buckets[..i], so, out, |before|);
        Step2(KeysOf(before), Keys(g, first, buckets[i - 1].key + 1), Keys(g, g.next(buckets[i - 1].key), b.key));
      } else {
        NoKeys(g, first);
        assert KeysOf(before) + [] == KeysOf(before);
      }
      KeysUpTo(g, first, b.key);
      if |out| + 1 > limit {
        AllFull(g, buckets, i);
        return before, true;
      }
      KeysOfNext(out, b);
      KeepsBucket(buckets, i, out, |before|);
      assert KeysOf(before) + Keys(g, first, b.key) + [b.key] == KeysOf(before) + (Keys(g, first, b.key) + [b.key]);
      out := out + [b];
    }
    assert buckets[..|buckets|] == buckets;
  }

  lemma Step2(ks: seq<int>, a: seq<int>, b: seq<int>)
    ensures ks + (a + b) == ks + a + b
  {
  }

  /** From one bucket to the next. */
  lemma Between(g: Grid, buckets: seq<Bucket>, i: nat)
    requires Laws(g) && Ordered(g, buckets) && 0 < i < |buckets|
    ensures var first, prev, key := buckets[0].key, buckets[i - 1].key, buckets[i].key;
            && IsKey(g, g.next(prev)) && first <= prev < key
            && Keys(g, first, prev + 1) + Keys(g, g.next(prev), key) == Keys(g, first, key)
  {
    var first, prev, key := buckets[0].key, buckets[i - 1].key, buckets[i].key;
    assert Follows(g, prev, g.next(prev));
    assert first <= prev by {
      if i > 1 {
        assert buckets[0].key < buckets[i - 1].key;
      }
    }
    NextIsLeast(g, prev, key);
    KeysUpTo(g, first, prev);
    KeysConcat(g, first, prev, key);
    KeysFrom(g, prev, key);
    hide Keys;
    assert Keys(g, first, prev) + ([prev] + Keys(g, g.next(prev), key)) == Keys(g, first, prev) + [prev] + Keys(g, g.next(prev), key);
  }

  /** Fewer keys below an earlier bound. */
  lemma KeysGrow(g: Grid, a: int, m: int, e: int)
    requires Laws(g) && IsKey(g, a) && IsKey(g, m) && a <= m <= e
    ensures |Keys(g, a, m)| <= |Keys(g, a, e)|
    ensures m < e ==> |Keys(g, a, m)| < |Keys(g, a, e)|
  {
    KeysConcat(g, a, m, e);
  }

  lemma MoreFull(g: Grid, buckets: seq<Bucket>, i: nat, limit: nat)
    requires Laws(g) && Ordered(g, buckets) && 0 < i < |buckets|
    ensures |Keys(g, buckets[0].key, buckets[i].key)| < |Keys(g, buckets[0].key, buckets[|buckets| - 1].key + 1)|
  {
    AllFull(g, buckets, i);
  }

  lemma AllFull(g: Grid, buckets: seq<Bucket>, i: nat)
    requires Laws(g) && Ordered(g, buckets) && i < |buckets|
    ensures |Keys(g, buckets[0].key, buckets[i].key)| < |Keys(g, buckets[0].key, buckets[|buckets| - 1].key + 1)|
  {
    assert i > 0 ==> buckets[0].key < buckets[i].key;
    assert i < |buckets| - 1 ==> buckets[i].key < buckets[|buckets| - 1].key;
    KeysGrow(g, buckets[0].key, buckets[i].key, buckets[|buckets| - 1].key + 1);
  }

  lemma KeepsEmpty(some: seq<Bucket>, so: seq<Bucket>, out: seq<Bucket>, n: nat)
    requires n <= |so| && so <= out && KeepsOnly(some, so[n..]) && forall b :: b in out[|so|..] ==> b.docCount == 0
    ensures KeepsOnly(some, out[n..])
  {
    assert out[n..] == so[n..] + out[|so|..];
  }

  lemma KeepsBucket(buckets: seq<Bucket>, i: nat, out: seq<Bucket>, n: nat)
    requires i < |buckets| && n <= |out| && KeepsOnly(buckets[..i], out[n..])
    ensures KeepsOnly(buckets[..i + 1], (out + [buckets[i]])[n..])
  {
    assert buckets[..i + 1] == buckets[..i] + [buckets[i]];
    assert (out + [buckets[i]])[n..] == out[n..] + [buckets[i]];
  }

  // ---------------------------------------------------------------- fillDateHistogram

  /** Extended bounds as keys of the histogram, which is what rounding them gives. */
  datatype Bounds = Bounds(min: Option<int>, max: Option<int>)

  ghost predicate Rounded(g: Grid, bounds: Bounds) {
    && (bounds.min.Some? ==> IsKey(g, bounds.min.value)) && (bounds.max.Some? ==> IsKey(g, bounds.max.value))
    && (bounds.min.Some? && bounds.max.Some? ==> bounds.min.value <= bounds.max.value)
  }

  /** The first key of the result. */
  function Low(buckets: seq<Bucket>, bounds: Bounds): int
    requires buckets != []
  {
    if bounds.min.Some? && bounds.min.value < buckets[0].key then bounds.min.value else buckets[0].key
  }

  function High(buckets: seq<Bucket>, bounds: Bounds): int
    requires buckets != []
  {
    var last := buckets[|buckets| - 1].key;
    if bounds.max.Some? && bounds.max.value > last then bounds.max.value else last
  }

  /** The keys of the filled histogram. */
  ghost function Filled(g: Grid, buckets: seq<Bucket>, bounds: Bounds): seq<int>
    requires Laws(g) && Ordered(g, buckets) && Rounded(g, bounds)
  {
    if buckets != [] then Keys(g, Low(buckets, bounds), High(buckets, bounds) + 1)
    else if bounds.min.Some? && bounds.max.Some? then Keys(g, bounds.min.value, bounds.max.value + 1)
    else []
  }

  /**
   * Every rounding key from the first to the last exactly once, and every bucket that was there; an
   * error exactly when that makes more buckets than the limit.
   */
  method FillDateHistogram(g: Grid, buckets: seq<Bucket>, bounds: Bounds, limit: nat) returns (r: Option<seq<Bucket>>)
    requires Laws(g) && Ordered(g, buckets) && Rounded(g, bounds)
    ensures r.Some? <==> |Filled(g, buckets, bounds)| <= limit
    ensures r.Some? ==> KeysOf(r.value) == Filled(g, buckets, bounds) && KeepsOnly(buckets, r.value)
  {
    hide Keys, KeysOf;
    NoBuckets();
    var out: seq<Bucket>, full := [], false;
    if buckets == [] {
      if bounds.min.Some? && bounds.max.Some? {
        out, full := AddEmpty(g, [], bounds.min.value, bounds.max.value + 1, limit);
        assert out[0..] == out && [] + Filled(g, buckets, bounds) == Filled(g, buckets, bounds);
      }
      return if full then None else Some(out);
    }
    var first, last := buckets[0].key, buckets[|buckets| - 1].key;
    ghost var low, high := Low(buckets, bounds), High(buckets, bounds);
    FirstLast(g, buckets, bounds);
    if bounds.min.Some? && bounds.min.value < first {
      out, full := AddEmpty(g, [], bounds.min.value, first, limit);
      if full {
        return None;
      }
      assert out[0..] == out && [] + Keys(g, low, first) == Keys(g, low, first);
    } else {
      NoKeys(g, first);
    }
    ghost var empty := out;
    var some, full' := AddBuckets(g, out, buckets, limit);
    if full' {
      return None;
    }
    KeepsAfter(buckets, empty, some);
    out := some;
    if bounds.max.Some? && bounds.max.value > last {
      assert Follows(g, last, g.next(last));
      out, full := AddEmpty(g, out, g.next(last), bounds.max.value + 1, limit);
      if full {
        return None;
      }
      KeepsEmpty(buckets, some, out, 0);
      assert out[0..] == out && some[0..] == some;
    } else {
      assert KeysOf(out) + [] == KeysOf(out);
    }
    return Some(out);
  }

  lemma NoBuckets()
    ensures KeysOf([]) == []
  {
  }

  lemma KeepsAfter(buckets: seq<Bucket>, empty: seq<Bucket>, out: seq<Bucket>)
    requires empty <= out && KeepsOnly(buckets, out[|empty|..]) && forall b :: b in empty ==> b.docCount == 0
    ensures KeepsOnly(buckets, out)
  {
    assert out == empty + out[|empty|..];
  }

  /** The keys before the first bucket, from it to the last, and after the last. */
  lemma FirstLast(g: Grid, buckets: seq<Bucket>, bounds: Bounds)
    requires Laws(g) && Ordered(g, buckets) && Rounded(g, bounds) && buckets != []
    ensures var first, last, low, high := buckets[0].key, buckets[|buckets| - 1].key, Low(buckets, bounds), High(buckets, bounds);
            && IsKey(g, low) && IsKey(g, first) && IsKey(g, g.next(last)) && low <= first <= last <= high
            && Keys(g, low, first) + Keys(g, first, last + 1) + Keys(g, g.next(last), high + 1) == Keys(g, low, high + 1)
            && (high == last ==> Keys(g, g.next(last), high + 1) == [])
  {
    var first, last, low, high := buckets[0].key, buckets[|buckets| - 1].key, Low(buckets, bounds), High(buckets, bounds);
    assert |buckets| > 1 ==> buckets[0].key < buckets[|buckets| - 1].key;
    Stretches(g, low, first, last, high);
  }

  lemma Stretches(g: Grid, low: int, first: int, last: int, high: int)
    requires Laws(g) && IsKey(g, low) && IsKey(g, first) && IsKey(g, last) && low <= first <= last <= high
    ensures IsKey(g, g.next(last))
    ensures Keys(g, low, first) + Keys(g, first, last + 1) + Keys(g, g.next(last), high + 1) == Keys(g, low, high + 1)
    ensures high == last ==> Keys(g, g.next(last), high + 1) == []
  {
    KeysFrom(g, last, last + 1);
    OneKey(g, last);
    KeysFrom(g, last, high + 1);
    hide Keys;
    KeysConcat(g, low, first, last + 1);
    KeysConcat(g, low, last, high + 1);
    KeysUpTo(g, low, last);
    Step(Keys(g, low, last), last, Keys(g, g.next(last), high + 1));
  }
}

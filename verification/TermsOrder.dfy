/**
 * The order of terms buckets, internal/engine/aggs_order.go and aggs_terms.go: compound orders over
 * counts, keys and values of sub-aggregations, with a key tie-breaker.
 *
 * A value of a sub-aggregation is an opaque number, or None where the source has NaN.
 */
module TermsOrder {
  import opened CompositeOrder
  import opened Options
  import Sorting

  datatype Term = Num(n: int) | Str(s: string)

  datatype Bucket = Bucket(key: Term, docCount: nat)

  datatype Order = ByCount(asc: bool) | ByKey(asc: bool) | ByValue(asc: bool, agg: nat)

  /** The values that order paths resolve to. */
  type Values = (nat, Bucket) -> Option<int>

  function NumberOf(t: Term): int { if t.Num? then t.n else 0 }

  /** compareTermKeys, except for addresses. */
  function CompareTerms(a: Term, b: Term): int {
    if a.Num? || b.Num? then Sign(NumberOf(a), NumberOf(b)) else CompareText(a.s, b.s)
  }

  /** NaN comes last in both directions. */
  function CompareDiscardNaN(l: Option<int>, r: Option<int>, asc: bool): int {
    if l == None then (if r == None then 0 else 1)
    else if r == None then -1
    else if asc then Sign(l.value, r.value)
    else -Sign(l.value, r.value)
  }

  function CompareBy(o: Order, values: Values, a: Bucket, b: Bucket): int {
    match o
    case ByCount(asc) => if asc then Sign(a.docCount, b.docCount) else -Sign(a.docCount, b.docCount)
    case ByKey(asc) => if asc then CompareTerms(a.key, b.key) else -CompareTerms(a.key, b.key)
    case ByValue(asc, agg) => CompareDiscardNaN(values(agg, a), values(agg, b), asc)
  }

  function CompareBuckets(orders: seq<Order>, values: Values, a: Bucket, b: Bucket): int {
    if orders == [] then 0
    else
      var c := CompareBy(orders[0], values, a, b);
      if c != 0 then c else CompareBuckets(orders[1..], values, a, b)
  }

  /** withKeyTiebreak: the order, or a default one, ends with the key. */
  function WithKeyTiebreak(orders: seq<Order>, def: seq<Order>): (out: seq<Order>)
    requires def != []
    ensures out != [] && out[|out| - 1].ByKey?
    ensures (if orders == [] then def else orders) <= out
    ensures var n := |if orders == [] then def else orders|;
            n < |out| ==> |out| == n + 1 && out[n] == ByKey(true) && !out[n - 1].ByKey?
  {
    var chosen := if orders == [] then def else orders;
    if chosen[|chosen| - 1].ByKey? then chosen else chosen + [ByKey(true)]
  }

  // ---------------------------------------------------------------- a strict total order on different keys

  /** Terms of one field: all numbers or all texts. */
  predicate SameKind(a: Term, b: Term) { a.Num? == b.Num? }

  lemma TermsCompare(a: Term, b: Term, c: Term)
    requires SameKind(a, b) && SameKind(b, c)
    ensures CompareTerms(a, b) == -CompareTerms(b, a) && (CompareTerms(a, b) == 0 <==> a == b)
    ensures CompareTerms(a, b) <= 0 && CompareTerms(b, c) <= 0 ==> CompareTerms(a, c) <= 0
    ensures CompareTerms(a, b) >= 0 && CompareTerms(b, c) >= 0 ==> CompareTerms(a, c) >= 0
  {
    if a.Str? {
      TextFlips(a.s, b.s);
      TextFlips(b.s, c.s);
      TextFlips(a.s, c.s);
      if CompareText(a.s, b.s) < 0 && CompareText(b.s, c.s) < 0 {
        TextChains(a.s, b.s, c.s);
      }
      if CompareText(c.s, b.s) < 0 && CompareText(b.s, a.s) < 0 {
        TextChains(c.s, b.s, a.s);
      }
    }
  }

  lemma ByFlips(o: Order, values: Values, a: Bucket, b: Bucket)
    requires SameKind(a.key, b.key)
    ensures CompareBy(o, values, a, b) == -CompareBy(o, values, b, a)
    ensures o.ByKey? && CompareBy(o, values, a, b) == 0 ==> a.key == b.key
  {
    TermsCompare(a.key, b.key, a.key);
  }

  lemma ByChains(o: Order, values: Values, a: Bucket, b: Bucket, c: Bucket)
    requires SameKind(a.key, b.key) && SameKind(b.key, c.key)
    requires CompareBy(o, values, a, b) <= 0 && CompareBy(o, values, b, c) <= 0
    ensures CompareBy(o, values, a, c) <= 0
    ensures CompareBy(o, values, a, c) == 0 ==> CompareBy(o, values, a, b) == 0 && CompareBy(o, values, b, c) == 0
  {
    TermsCompare(a.key, b.key, c.key);
    TermsCompare(c.key, b.key, a.key);
    TermsCompare(a.key, c.key, b.key);
    TermsCompare(b.key, c.key, a.key);
  }

  /** Antisymmetric, for every compound order; equal only on equal keys when the order ends with the key. */
  lemma {:induction false} BucketsFlip(orders: seq<Order>, values: Values, a: Bucket, b: Bucket)
    requires SameKind(a.key, b.key)
    ensures CompareBuckets(orders, values, a, b) == -CompareBuckets(orders, values, b, a)
    ensures orders != [] && orders[|orders| - 1].ByKey? && CompareBuckets(orders, values, a, b) == 0 ==> a.key == b.key
  {
    if orders != [] {
      ByFlips(orders[0], values, a, b);
      BucketsFlip(orders[1..], values, a, b);
    }
  }

  lemma {:induction false} BucketsChain(orders: seq<Order>, values: Values, a: Bucket, b: Bucket, c: Bucket)
    requires SameKind(a.key, b.key) && SameKind(b.key, c.key)
    requires CompareBuckets(orders, values, a, b) <= 0 && CompareBuckets(orders, values, b, c) <= 0
    ensures CompareBuckets(orders, values, a, c) <= 0
    ensures CompareBuckets(orders, values, a, c) == 0 ==>
              CompareBuckets(orders, values, a, b) == 0 && CompareBuckets(orders, values, b, c) == 0
  {
    if orders != [] {
      ByChains(orders[0], values, a, b, c);
      if CompareBy(orders[0], values, a, b) == 0 && CompareBy(orders[0], values, b, c) == 0 {
        ByFlips(orders[0], values, a, b);
        ByFlips(orders[0], values, b, c);
        ByChains(orders[0], values, c, b, a);
        ByFlips(orders[0], values, a, c);
        BucketsChain(orders[1..], values, a, b, c);
      }
    }
  }

  function Before(orders: seq<Order>, values: Values): (Bucket, Bucket) -> bool {
    (a, b) => CompareBuckets(orders, values, a, b) < 0
  }

  ghost predicate DifferentKeys(buckets: seq<Bucket>) {
    forall i, j :: 0 <= i < j < |buckets| ==> buckets[i].key != buckets[j].key
  }

  ghost predicate OneKind(buckets: seq<Bucket>) {
    forall a, b :: a in buckets && b in buckets ==> SameKind(a.key, b.key)
  }

  /** Buckets of different keys are totally ordered, whatever the orders before the key. */
  lemma OrderIsTotal(orders: seq<Order>, values: Values, buckets: seq<Bucket>)
    requires orders != [] && orders[|orders| - 1].ByKey? && DifferentKeys(buckets) && OneKind(buckets)
    ensures Sorting.Total(Before(orders, values), buckets)
  {
    var less := Before(orders, values);
    forall a, b | a in buckets && b in buckets
      ensures less(a, b) || a == b || less(b, a)
      ensures !(less(a, b) && less(b, a))
    {
      BucketsFlip(orders, values, a, b);
    }
    forall a, b, c | a in buckets && b in buckets && c in buckets && less(a, b) && less(b, c) ensures less(a, c) {
      BucketsChain(orders, values, a, b, c);
    }
  }

  // ---------------------------------------------------------------- what the order is

  /** Numbers by size, texts lexicographically. */
  ghost predicate TermBefore(a: Term, b: Term) {
    (a.Num? && b.Num? && a.n < b.n) || (a.Str? && b.Str? && TextBefore(a.s, b.s))
  }

  /** Counts and keys in their direction; values in theirs, and missing ones after all others in both. */
  ghost predicate Precedes(o: Order, values: Values, a: Bucket, b: Bucket) {
    match o
    case ByCount(asc) => if asc then a.docCount < b.docCount else b.docCount < a.docCount
    case ByKey(asc) => if asc then TermBefore(a.key, b.key) else TermBefore(b.key, a.key)
    case ByValue(asc, agg) =>
      match (values(agg, a), values(agg, b))
      case (Some(v), Some(w)) => if asc then v < w else w < v
      case (Some(_), None) => true
      case (None, _) => false
  }

  ghost predicate Ties(o: Order, values: Values, a: Bucket, b: Bucket) {
    !Precedes(o, values, a, b) && !Precedes(o, values, b, a)
  }

  /** The i-th order puts a first, and the earlier ones do not tell the buckets apart. */
  ghost predicate DecidedBy(orders: seq<Order>, values: Values, a: Bucket, b: Bucket, i: nat) {
    i < |orders| && Precedes(orders[i], values, a, b) && forall j :: 0 <= j < i ==> Ties(orders[j], values, a, b)
  }

  /** The first order that tells the buckets apart puts a first. */
  ghost predicate RanksBefore(orders: seq<Order>, values: Values, a: Bucket, b: Bucket) {
    exists i: nat :: DecidedBy(orders, values, a, b, i)
  }

  lemma PrecedesExactly(o: Order, values: Values, a: Bucket, b: Bucket)
    requires SameKind(a.key, b.key)
    ensures CompareBy(o, values, a, b) < 0 <==> Precedes(o, values, a, b)
    ensures CompareBy(o, values, a, b) == 0 <==> Ties(o, values, a, b)
  {
    if a.key.Str? {
      TextFlips(a.key.s, b.key.s);
      TextExactly(a.key.s, b.key.s);
      TextExactly(b.key.s, a.key.s);
    }
  }

  lemma {:induction false} RanksExactly(orders: seq<Order>, values: Values, a: Bucket, b: Bucket)
    requires SameKind(a.key, b.key)
    ensures CompareBuckets(orders, values, a, b) < 0 <==> RanksBefore(orders, values, a, b)
  {
    if orders != [] {
      PrecedesExactly(orders[0], values, a, b);
      hide Precedes, Ties;
      if Ties(orders[0], values, a, b) {
        RanksExactly(orders[1..], values, a, b);
        RanksTail(orders, values, a, b);
      } else {
        assert Precedes(orders[0], values, a, b) ==> DecidedBy(orders, values, a, b, 0);
      }
    }
  }

  lemma RanksTail(orders: seq<Order>, values: Values, a: Bucket, b: Bucket)
    requires orders != [] && Ties(orders[0], values, a, b)
    ensures RanksBefore(orders, values, a, b) <==> RanksBefore(orders[1..], values, a, b)
  {
    assert !Precedes(orders[0], values, a, b);
    hide Precedes, Ties;
    if i: nat :| DecidedBy(orders, values, a, b, i) {
      assert forall j :: 0 <= j < i - 1 ==> Ties(orders[1..][j], values, a, b) by {
        forall j | 0 <= j < i - 1 ensures Ties(orders[1..][j], values, a, b) {
          assert Ties(orders[j + 1], values, a, b);
        }
      }
      assert DecidedBy(orders[1..], values, a, b, i - 1);
    }
    if i: nat :| DecidedBy(orders[1..], values, a, b, i) {
      forall j | 0 <= j < i + 1 ensures Ties(orders[j], values, a, b) {
        if j > 0 {
          assert Ties(orders[1..][j - 1], values, a, b);
        }
      }
      assert DecidedBy(orders, values, a, b, i + 1);
    }
  }

  /** Each bucket before all later ones. */
  ghost predicate InOrder(orders: seq<Order>, values: Values, buckets: seq<Bucket>) {
    forall i, j :: 0 <= i < j < |buckets| ==> RanksBefore(orders, values, buckets[i], buckets[j])
  }

  /** By its leading order, such a list rises or falls, and the next order decides where that ties. */
  lemma LeadingOrder(orders: seq<Order>, values: Values, buckets: seq<Bucket>, i: nat, j: nat)
    requires orders != [] && InOrder(orders, values, buckets) && i < j < |buckets|
    ensures !Precedes(orders[0], values, buckets[j], buckets[i])
    ensures Precedes(orders[0], values, buckets[i], buckets[j]) || RanksBefore(orders[1..], values, buckets[i], buckets[j])
  {
    var a, b := buckets[i], buckets[j];
    assert RanksBefore(orders, values, a, b);
    if Precedes(orders[0], values, a, b) {
      NotBoth(orders[0], values, a, b);
    } else {
      var n: nat :| DecidedBy(orders, values, a, b, n);
      assert Ties(orders[0], values, a, b);
      RanksTail(orders, values, a, b);
    }
  }

  lemma NotBoth(o: Order, values: Values, a: Bucket, b: Bucket)
    requires Precedes(o, values, a, b)
    ensures !Precedes(o, values, b, a)
  {
    if o.ByKey? && a.key.Str? && b.key.Str? {
      TextFlips(a.key.s, b.key.s);
      TextExactly(a.key.s, b.key.s);
      TextExactly(b.key.s, a.key.s);
    }
  }
}

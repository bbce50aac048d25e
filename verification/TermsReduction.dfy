/**
 * What collectTerms in internal/engine/aggs_terms.go computes, as functions: the terms of every
 * index are counted, sorted and cut off per index, merged, filtered by min_doc_count and cut off
 * again; what is not returned goes to sum_other_doc_count.
 */
module TermsReduction {
  import opened Lists
  import opened Options
  import opened TermsOrder
  import Sorting

  type Ix = nat

  /** An accepted value of a document, in the order of the hits. */
  datatype Pair = Pair(ix: Ix, term: Term)

  /** shardSize: what the request gives. */
  datatype Spec = Spec(size: nat, shardSize: Option<nat>, minDoc: nat, shardMinDoc: nat, orders: seq<Order>)

  ghost predicate Ordered(spec: Spec) { spec.orders != [] && spec.orders[|spec.orders| - 1].ByKey? }

  function ShardSize(spec: Spec): (n: nat)
    requires spec.orders != []
    ensures n >= spec.size
    ensures spec.shardSize.Some? ==> n == spec.size || n == spec.shardSize.value >= spec.size
    ensures spec.shardSize == None && spec.orders[0].ByKey? ==> n == spec.size
    ensures spec.shardSize == None && !spec.orders[0].ByKey? && n > spec.size && n < 0x7fffffff ==> 2 * (n - 10) <= 3 * spec.size < 2 * (n - 9)
    ensures spec.shardSize == None && !spec.orders[0].ByKey? && spec.size < 0x7fff_ffff ==> spec.size < n <= 0x7fff_ffff
  {
    var n := match spec.shardSize
             case Some(given) => given
             case None =>
               if spec.orders[0].ByKey? then spec.size
               else if spec.size * 3 / 2 + 10 > 0x7fffffff then 0x7fffffff
               else spec.size * 3 / 2 + 10;
    if n < spec.size then spec.size else n
  }

  predicate CountDesc(spec: Spec)
    requires spec.orders != []
  {
    spec.orders[0] == ByCount(false)
  }

  // ---------------------------------------------------------------- counting

  function Count(pairs: seq<Pair>, ix: Ix, t: Term): nat {
    if pairs == [] then 0
    else Count(pairs[..|pairs| - 1], ix, t) + if pairs[|pairs| - 1] == Pair(ix, t) then 1 else 0
  }

  function PairsOf(pairs: seq<Pair>, ix: Ix): nat {
    if pairs == [] then 0 else PairsOf(pairs[..|pairs| - 1], ix) + if pairs[|pairs| - 1].ix == ix then 1 else 0
  }

  function SumCounts(pairs: seq<Pair>, ix: Ix, keys: seq<Term>): nat {
    if keys == [] then 0 else SumCounts(pairs, ix, keys[..|keys| - 1]) + Count(pairs, ix, keys[|keys| - 1])
  }

  function SumDocs(bs: seq<Bucket>): nat {
    if bs == [] then 0 else SumDocs(bs[..|bs| - 1]) + bs[|bs| - 1].docCount
  }

  lemma {:induction false} OneMorePair(pairs: seq<Pair>, p: Pair, ix: Ix, keys: seq<Term>)
    requires Distinct(keys)
    ensures SumCounts(pairs + [p], ix, keys) == SumCounts(pairs, ix, keys) + if p.ix == ix && p.term in keys then 1 else 0
    decreases |keys|
  {
    if keys != [] {
      var n := |keys| - 1;
      OneMorePair(pairs, p, ix, keys[..n]);
      assert (pairs + [p])[..|pairs|] == pairs;
      assert keys == keys[..n] + [keys[n]];
      assert keys[n] !in keys[..n];
    }
  }

  ghost function Positions(pairs: seq<Pair>, ix: Ix): set<nat> {
    set i: nat | i < |pairs| && pairs[i].ix == ix
  }

  /** Every pair counts once, for its term and for its index. */
  lemma {:induction false} CountedOnce(pairs: seq<Pair>, ix: Ix, t: Term)
    ensures Count(pairs, ix, t) == multiset(pairs)[Pair(ix, t)]
    ensures PairsOf(pairs, ix) == |Positions(pairs, ix)|
  {
    if pairs != [] {
      var n := |pairs| - 1;
      assert pairs == pairs[..n] + [pairs[n]];
      CountedOnce(pairs[..n], ix, t);
      assert Positions(pairs, ix) == Positions(pairs[..n], ix) + if pairs[n].ix == ix then {n} else {};
    }
  }

  /** The counts of all terms of an index are its pairs. */
  lemma {:induction false} CountsAreComplete(pairs: seq<Pair>, ix: Ix, keys: seq<Term>)
    requires Distinct(keys) && forall p :: p in pairs && p.ix == ix ==> p.term in keys
    ensures SumCounts(pairs, ix, keys) == PairsOf(pairs, ix)
    decreases |pairs|
  {
    if pairs == [] {
      NoPairs(ix, keys);
    } else {
      var init, p := pairs[..|pairs| - 1], pairs[|pairs| - 1];
      assert pairs == init + [p];
      CountsAreComplete(init, ix, keys);
      OneMorePair(init, p, ix, keys);
    }
  }

  lemma {:induction false} NoPairs(ix: Ix, keys: seq<Term>)
    ensures SumCounts([], ix, keys) == 0
  {
    if keys != [] {
      NoPairs(ix, keys[..|keys| - 1]);
    }
  }

  // ---------------------------------------------------------------- the terms of one index

  /** The counts by term and index; an entry may be zero. */
  type Groups = map<Term, map<Ix, nat>>

  ghost predicate Grouped(pairs: seq<Pair>, groups: Groups, keys: seq<Term>) {
    && Distinct(keys) && (forall t :: t in keys <==> t in groups)
    && (forall t, ix :: t in groups && ix in groups[t] ==> groups[t][ix] == Count(pairs, ix, t))
    && (forall p :: p in pairs ==> p.term in groups && p.ix in groups[p.term])
  }

  /** The terms that an index offers, of the first n keys. */
  function Candidates(groups: Groups, keys: seq<Term>, ix: Ix, n: nat, minimum: nat): (cands: seq<Bucket>)
    requires n <= |keys| && forall t :: t in keys ==> t in groups
  {
    if n == 0 then []
    else
      var t := keys[n - 1];
      Candidates(groups, keys, ix, n - 1, minimum)
      + if ix in groups[t] && groups[t][ix] >= minimum then [Bucket(t, groups[t][ix])] else []
  }

  function Limited(bs: seq<Bucket>, size: nat): seq<Bucket> { if |bs| > size then bs[..size] else bs }

  /** The buckets that an index contributes. */
  function Shard(spec: Spec, values: Values, cands: seq<Bucket>): seq<Bucket>
    requires spec.orders != []
  {
    Limited(Sorting.Sort(Before(spec.orders, values), cands), ShardSize(spec))
  }

  lemma {:induction false} CandidateIn(groups: Groups, keys: seq<Term>, ix: Ix, n: nat, minimum: nat, b: Bucket)
    requires n <= |keys| && forall t :: t in keys ==> t in groups
    ensures b in Candidates(groups, keys, ix, n, minimum)
       <==> b.key in keys[..n] && ix in groups[b.key] && b.docCount == groups[b.key][ix] >= minimum
    decreases n
  {
    if n > 0 {
      CandidateIn(groups, keys, ix, n - 1, minimum, b);
      assert keys[..n] == keys[..n - 1] + [keys[n - 1]];
    }
  }

  lemma {:induction false} CandidatesDiffer(groups: Groups, keys: seq<Term>, ix: Ix, n: nat, minimum: nat)
    requires n <= |keys| && Distinct(keys) && forall t :: t in keys ==> t in groups
    ensures DifferentKeys(Candidates(groups, keys, ix, n, minimum))
    decreases n
  {
    if n > 0 {
      CandidatesDiffer(groups, keys, ix, n - 1, minimum);
      var before := Candidates(groups, keys, ix, n - 1, minimum);
      forall i | 0 <= i < |before| ensures before[i].key != keys[n - 1] {
        CandidateIn(groups, keys, ix, n - 1, minimum, before[i]);
        assert before[i] in before;
      }
    }
  }

  lemma {:induction false} CandidatesSum(pairs: seq<Pair>, groups: Groups, keys: seq<Term>, ix: Ix, n: nat)
    requires Grouped(pairs, groups, keys) && n <= |keys|
    ensures SumDocs(Candidates(groups, keys, ix, n, 0)) == SumCounts(pairs, ix, keys[..n])
    decreases n
  {
    if n > 0 {
      CandidatesSum(pairs, groups, keys, ix, n - 1);
      var t := keys[n - 1];
      SumCountsNext(pairs, ix, keys, n);
      var before := Candidates(groups, keys, ix, n - 1, 0);
      if ix !in groups[t] {
        NotThere(pairs, groups, keys, ix, t);
        assert before + [] == before;
      } else {
        SumNextDocs(before, Bucket(t, groups[t][ix]));
      }
    }
  }

  lemma SumCountsNext(pairs: seq<Pair>, ix: Ix, keys: seq<Term>, n: nat)
    requires 0 < n <= |keys|
    ensures SumCounts(pairs, ix, keys[..n]) == SumCounts(pairs, ix, keys[..n - 1]) + Count(pairs, ix, keys[n - 1])
  {
    assert keys[..n][..n - 1] == keys[..n - 1];
  }

  lemma SumNextDocs(bs: seq<Bucket>, b: Bucket)
    ensures SumDocs(bs + [b]) == SumDocs(bs) + b.docCount
  {
    assert (bs + [b])[..|bs|] == bs;
  }

  lemma NotThere(pairs: seq<Pair>, groups: Groups, keys: seq<Term>, ix: Ix, t: Term)
    requires Grouped(pairs, groups, keys) && t in groups && ix !in groups[t]
    ensures Count(pairs, ix, t) == 0
  {
    NoneCounted(pairs, ix, t);
  }

  lemma {:induction false} NoneCounted(pairs: seq<Pair>, ix: Ix, t: Term)
    requires Pair(ix, t) !in pairs
    ensures Count(pairs, ix, t) == 0
  {
    if pairs != [] {
      NoneCounted(pairs[..|pairs| - 1], ix, t);
    }
  }

  // ---------------------------------------------------------------- merging

  /** A bucket joins the list, or the bucket of its key. */
  function MergeOne(list: seq<Bucket>, c: Bucket): (out: seq<Bucket>) {
    if list == [] then [c]
    else if list[0].key == c.key then [Bucket(c.key, list[0].docCount + c.docCount)] + list[1..]
    else [list[0]] + MergeOne(list[1..], c)
  }

  function Merge(list: seq<Bucket>, shard: seq<Bucket>): (out: seq<Bucket>) {
    if shard == [] then list else MergeOne(Merge(list, shard[..|shard| - 1]), shard[|shard| - 1])
  }

  lemma {:induction false} SumCons(b: Bucket, bs: seq<Bucket>)
    ensures SumDocs([b] + bs) == b.docCount + SumDocs(bs)
  {
    if bs == [] {
      assert [b] + bs == [b] && [b][..0] == [];
    } else {
      SumCons(b, bs[..|bs| - 1]);
      assert ([b] + bs)[..|bs|] == [b] + bs[..|bs| - 1];
    }
  }

  lemma {:induction false} MergeOneSums(list: seq<Bucket>, c: Bucket)
    ensures SumDocs(MergeOne(list, c)) == SumDocs(list) + c.docCount
  {
    if list == [] {
      SumCons(c, []);
      assert [c] + [] == [c];
    } else {
      SumCons(list[0], list[1..]);
      assert list == [list[0]] + list[1..];
      if list[0].key == c.key {
        SumCons(Bucket(c.key, list[0].docCount + c.docCount), list[1..]);
      } else {
        MergeOneSums(list[1..], c);
        SumCons(list[0], MergeOne(list[1..], c));
      }
    }
  }

  lemma {:induction false} MergeSums(list: seq<Bucket>, shard: seq<Bucket>)
    ensures SumDocs(Merge(list, shard)) == SumDocs(list) + SumDocs(shard)
    decreases |shard|
  {
    if shard != [] {
      MergeSums(list, shard[..|shard| - 1]);
      MergeOneSums(Merge(list, shard[..|shard| - 1]), shard[|shard| - 1]);
    }
  }

  /** Where MergeOne puts a bucket. */
  lemma {:induction false} MergeOneAt(list: seq<Bucket>, c: Bucket, i: nat)
    requires i <= |list| && (forall j :: 0 <= j < i ==> list[j].key != c.key) && (i < |list| ==> list[i].key == c.key)
    ensures MergeOne(list, c) == if i < |list| then list[i := Bucket(c.key, list[i].docCount + c.docCount)] else list + [c]
  {
    if i > 0 {
      MergeOneAt(list[1..], c, i - 1);
    }
  }

  lemma {:induction false} MergeIntoNothing(shard: seq<Bucket>)
    requires DifferentKeys(shard)
    ensures Merge([], shard) == shard
  {
    if shard != [] {
      var init := shard[..|shard| - 1];
      MergeIntoNothing(init);
      MergeOneAt(init, shard[|shard| - 1], |init|);
      assert shard == init + [shard[|shard| - 1]];
    }
  }

  // ---------------------------------------------------------------- what merging means

  ghost predicate HasKey(list: seq<Bucket>, t: Term) { exists i :: 0 <= i < |list| && list[i].key == t }

  /** The documents of all buckets with a key. */
  function DocsAt(list: seq<Bucket>, t: Term): nat {
    if list == [] then 0 else DocsAt(list[1..], t) + if list[0].key == t then list[0].docCount else 0
  }

  lemma HasKeyCons(b: Bucket, list: seq<Bucket>, t: Term)
    ensures HasKey([b] + list, t) <==> b.key == t || HasKey(list, t)
    ensures DocsAt([b] + list, t) == DocsAt(list, t) + if b.key == t then b.docCount else 0
  {
    var all := [b] + list;
    assert all[1..] == list;
    if i :| 0 <= i < |list| && list[i].key == t {
      assert all[i + 1].key == t;
    }
    if b.key == t {
      assert all[0].key == t;
    }
    if i :| 0 <= i < |all| && all[i].key == t {
      assert i > 0 ==> list[i - 1].key == t;
    }
  }

  lemma {:induction false} MergeOneExact(list: seq<Bucket>, c: Bucket, t: Term)
    ensures HasKey(MergeOne(list, c), t) <==> HasKey(list, t) || c.key == t
    ensures DocsAt(MergeOne(list, c), t) == DocsAt(list, t) + if c.key == t then c.docCount else 0
  {
    hide HasKey, DocsAt;
    if list == [] {
      HasKeyCons(c, [], t);
      assert [c] + [] == [c];
    } else {
      assert list == [list[0]] + list[1..];
      HasKeyCons(list[0], list[1..], t);
      if list[0].key == c.key {
        HasKeyCons(Bucket(c.key, list[0].docCount + c.docCount), list[1..], t);
      } else {
        MergeOneExact(list[1..], c, t);
        HasKeyCons(list[0], MergeOne(list[1..], c), t);
      }
    }
  }

  lemma {:induction false} MergeOneDiffers(list: seq<Bucket>, c: Bucket)
    requires DifferentKeys(list)
    ensures DifferentKeys(MergeOne(list, c))
  {
    if list != [] && list[0].key != c.key {
      MergeOneDiffers(list[1..], c);
      var rest := MergeOne(list[1..], c);
      forall j | 0 <= j < |rest| ensures rest[j].key != list[0].key {
        MergeOneExact(list[1..], c, rest[j].key);
        assert HasKey(rest, rest[j].key);
      }
    }
  }

  lemma {:induction false} DocsSnoc(list: seq<Bucket>, b: Bucket, t: Term)
    ensures HasKey(list + [b], t) <==> HasKey(list, t) || b.key == t
    ensures DocsAt(list + [b], t) == DocsAt(list, t) + if b.key == t then b.docCount else 0
  {
    hide HasKey, DocsAt;
    if list == [] {
      HasKeyCons(b, [], t);
      assert [b] + [] == [b] == list + [b];
    } else {
      DocsSnoc(list[1..], b, t);
      HasKeyCons(list[0], list[1..], t);
      HasKeyCons(list[0], list[1..] + [b], t);
      assert [list[0]] + list[1..] == list && [list[0]] + (list[1..] + [b]) == list + [b];
    }
  }

  /** A merge has the keys of both lists, and adds up the documents of every key. */
  lemma {:induction false} MergeExact(list: seq<Bucket>, shard: seq<Bucket>, t: Term)
    ensures HasKey(Merge(list, shard), t) <==> HasKey(list, t) || HasKey(shard, t)
    ensures DocsAt(Merge(list, shard), t) == DocsAt(list, t) + DocsAt(shard, t)
    ensures DifferentKeys(list) ==> DifferentKeys(Merge(list, shard))
    decreases |shard|
  {
    if shard != [] {
      hide HasKey, DocsAt, DifferentKeys;
      var init, c := shard[..|shard| - 1], shard[|shard| - 1];
      assert shard == init + [c];
      MergeExact(list, init, t);
      MergeOneExact(Merge(list, init), c, t);
      DocsSnoc(init, c, t);
      if DifferentKeys(list) {
        MergeOneDiffers(Merge(list, init), c);
      }
    }
  }

  /** With different keys, the documents of a key are those of its bucket. */
  lemma {:induction false} DocsOfBucket(list: seq<Bucket>, t: Term)
    requires DifferentKeys(list)
    ensures forall b :: b in list && b.key == t ==> DocsAt(list, t) == b.docCount
    ensures !HasKey(list, t) ==> DocsAt(list, t) == 0
  {
    if list != [] {
      assert list == [list[0]] + list[1..];
      if HasKey(list[1..], t) {
        var i :| 0 <= i < |list[1..]| && list[1..][i].key == t;
        assert list[i + 1].key == t;
      }
      DocsOfBucket(list[1..], t);
    }
  }

  // ---------------------------------------------------------------- the result

  function Enough(bs: seq<Bucket>, minDoc: nat): (out: seq<Bucket>) {
    if bs == [] then []
    else Enough(bs[..|bs| - 1], minDoc) + if bs[|bs| - 1].docCount >= minDoc then [bs[|bs| - 1]] else []
  }

  /** The documents of buckets that min_doc_count drops. */
  function Dropped(bs: seq<Bucket>, minDoc: nat): nat {
    if bs == [] then 0
    else Dropped(bs[..|bs| - 1], minDoc) + if bs[|bs| - 1].docCount >= minDoc then 0 else bs[|bs| - 1].docCount
  }

  lemma {:induction false} EnoughSums(bs: seq<Bucket>, minDoc: nat)
    ensures SumDocs(Enough(bs, minDoc)) + Dropped(bs, minDoc) == SumDocs(bs)
  {
    if bs != [] {
      EnoughSums(bs[..|bs| - 1], minDoc);
      var before, last := Enough(bs[..|bs| - 1], minDoc), bs[|bs| - 1];
      assert (before + [last])[..|before|] == before;
      assert before + [] == before;
    }
  }

  lemma {:induction false} SumSplits(a: seq<Bucket>, b: seq<Bucket>)
    ensures SumDocs(a + b) == SumDocs(a) + SumDocs(b)
    decreases |b|
  {
    if b == [] {
      assert a + b == a;
    } else {
      SumSplits(a, b[..|b| - 1]);
      assert (a + b)[..|a + b| - 1] == a + b[..|b| - 1];
    }
  }

  lemma {:induction false} InsertSums(less: (Bucket, Bucket) -> bool, sorted: seq<Bucket>, b: Bucket)
    ensures SumDocs(Sorting.Insert(less, sorted, b)) == SumDocs(sorted) + b.docCount
  {
    if sorted == [] || less(b, sorted[0]) {
      SumCons(b, sorted);
    } else {
      InsertSums(less, sorted[1..], b);
      SumCons(sorted[0], sorted[1..]);
      SumCons(sorted[0], Sorting.Insert(less, sorted[1..], b));
      assert sorted == [sorted[0]] + sorted[1..];
    }
  }

  lemma {:induction false} SortSums(less: (Bucket, Bucket) -> bool, bs: seq<Bucket>)
    ensures SumDocs(Sorting.Sort(less, bs)) == SumDocs(bs)
  {
    if bs != [] {
      SortSums(less, bs[..|bs| - 1]);
      InsertSums(less, Sorting.Sort(less, bs[..|bs| - 1]), bs[|bs| - 1]);
    }
  }

  // ---------------------------------------------------------------- the best terms of a single index

  /** Buckets sorted by count come with falling counts. */
  ghost predicate Falling(bs: seq<Bucket>) {
    forall i, j :: 0 <= i < j < |bs| ==> bs[i].docCount >= bs[j].docCount
  }

  lemma SortedFalls(orders: seq<Order>, values: Values, bs: seq<Bucket>)
    requires orders != [] && orders[0] == ByCount(false) && Sorting.Ascending(Before(orders, values), bs)
    ensures Falling(bs)
  {
    forall i, j | 0 <= i < j < |bs| ensures bs[i].docCount >= bs[j].docCount {
      assert Before(orders, values)(bs[i], bs[j]);
    }
  }

  /** The first p buckets have enough documents, the next one has not. */
  ghost predicate SplitsAt(bs: seq<Bucket>, minDoc: nat, p: nat) {
    && p <= |bs| && (forall i :: 0 <= i < p ==> bs[i].docCount >= minDoc)
    && (p < |bs| ==> bs[p].docCount < minDoc)
  }

  lemma SplitExists(bs: seq<Bucket>, minDoc: nat) returns (p: nat)
    ensures SplitsAt(bs, minDoc, p)
  {
    p := 0;
    while p < |bs| && bs[p].docCount >= minDoc
      invariant p <= |bs| && forall i :: 0 <= i < p ==> bs[i].docCount >= minDoc
    {
      p := p + 1;
    }
  }

  lemma {:induction false} EnoughAll(bs: seq<Bucket>, minDoc: nat, n: nat)
    requires n <= |bs| && forall i :: 0 <= i < n ==> bs[i].docCount >= minDoc
    ensures Enough(bs[..n], minDoc) == bs[..n]
    decreases n
  {
    if n > 0 {
      EnoughAll(bs, minDoc, n - 1);
      EnoughNext(bs, minDoc, n);
      hide Enough;
      assert bs[..n - 1] + [bs[n - 1]] == bs[..n];
    }
  }

  lemma {:induction false} EnoughNoMore(bs: seq<Bucket>, minDoc: nat, p: nat, n: nat)
    requires p <= n <= |bs| && forall i :: p <= i < n ==> bs[i].docCount < minDoc
    ensures Enough(bs[..n], minDoc) == Enough(bs[..p], minDoc)
    decreases n
  {
    if p < n {
      EnoughNoMore(bs, minDoc, p, n - 1);
      EnoughNext(bs, minDoc, n);
      hide Enough;
      assert Enough(bs[..p], minDoc) + [] == Enough(bs[..p], minDoc);
    }
  }

  lemma EnoughFirst(bs: seq<Bucket>, minDoc: nat, p: nat, n: nat)
    requires Falling(bs) && SplitsAt(bs, minDoc, p) && n <= |bs|
    ensures Enough(bs[..n], minDoc) == if n <= p then bs[..n] else bs[..p]
  {
    hide Enough;
    if n <= p {
      EnoughAll(bs, minDoc, n);
    } else {
      EnoughAll(bs, minDoc, p);
      EnoughNoMore(bs, minDoc, p, n);
    }
  }

  lemma EnoughNext(bs: seq<Bucket>, minDoc: nat, n: nat)
    requires 0 < n <= |bs|
    ensures Enough(bs[..n], minDoc) == Enough(bs[..n - 1], minDoc) + if bs[n - 1].docCount >= minDoc then [bs[n - 1]] else []
  {
    assert bs[..n][..n - 1] == bs[..n - 1];
  }

  /** Cutting off at a larger size before the filter and at a smaller one after it loses nothing. */
  lemma CutTwice(bs: seq<Bucket>, minDoc: nat, larger: nat, smaller: nat)
    requires Falling(bs) && smaller <= larger
    ensures Limited(Enough(Limited(bs, larger), minDoc), smaller) == Limited(Enough(bs, minDoc), smaller)
  {
    var p := SplitExists(bs, minDoc);
    EnoughFirst(bs, minDoc, p, |bs|);
    TakeTake(bs, |bs|, |bs|);
    if |bs| > larger {
      EnoughFirst(bs, minDoc, p, larger);
      hide Enough, Falling, SplitsAt;
      if larger <= p {
        TakeTake(bs, larger, smaller);
        TakeTake(bs, p, smaller);
      }
    }
  }

  lemma TakeTake(bs: seq<Bucket>, m: nat, n: nat)
    requires n <= m <= |bs|
    ensures bs[..m][..n] == bs[..n] && bs[..|bs|] == bs
  {
  }
}

/**
 * collectTerms in internal/engine/aggs_terms.go: terms buckets over one or more indices, what
 * happens to every accepted pair of a document and a term, and which terms come back.
 */
module Terms {
  import opened Lists
  import opened Options
  import opened TermsOrder
  import opened TermsReduction
  import Sorting

  /** The terms of all documents of an index, for min_doc_count 0. */
  type AllTerms = Ix -> seq<Term>

  // ---------------------------------------------------------------- groups

  /** The term gets a bucket and the bucket an entry for the index. */
  function Touch(groups: Groups, t: Term, ix: Ix, add: nat): Groups {
    var counts := if t in groups then groups[t] else map[];
    groups[t := counts[ix := (if ix in counts then counts[ix] else 0) + add]]
  }

  function AddKey(keys: seq<Term>, t: Term): seq<Term> { if t in keys then keys else keys + [t] }

  lemma CountNext(pairs: seq<Pair>, p: Pair, ix: Ix, t: Term)
    ensures Count(pairs + [p], ix, t) == Count(pairs, ix, t) + if p == Pair(ix, t) then 1 else 0
  {
    assert (pairs + [p])[..|pairs|] == pairs;
  }

  lemma TouchPair(pairs: seq<Pair>, p: Pair, groups: Groups, keys: seq<Term>)
    requires Grouped(pairs, groups, keys)
    ensures Grouped(pairs + [p], Touch(groups, p.term, p.ix, 1), AddKey(keys, p.term))
  {
    var groups' := Touch(groups, p.term, p.ix, 1);
    forall t, ix | t in groups' && ix in groups'[t] ensures groups'[t][ix] == Count(pairs + [p], ix, t) {
      CountNext(pairs, p, ix, t);
      if !(t in groups && ix in groups[t]) {
        NoneCounted(pairs, ix, t);
      }
    }
  }

  lemma TouchZero(pairs: seq<Pair>, t: Term, ix: Ix, groups: Groups, keys: seq<Term>)
    requires Grouped(pairs, groups, keys)
    ensures Grouped(pairs, Touch(groups, t, ix, 0), AddKey(keys, t))
  {
    if !(t in groups && ix in groups[t]) {
      NoneCounted(pairs, ix, t) by {
        assert Pair(ix, t) !in pairs;
      }
    }
  }

  method Group(pairs: seq<Pair>) returns (groups: Groups, keys: seq<Term>)
    ensures Grouped(pairs, groups, keys)
    ensures forall t, ix :: t in groups && ix in groups[t] <==> Pair(ix, t) in pairs
  {
    groups, keys := map[], [];
    for n := 0 to |pairs|
      invariant Grouped(pairs[..n], groups, keys)
      invariant forall t, ix :: t in groups && ix in groups[t] ==> Pair(ix, t) in pairs[..n]
    {
      assert pairs[..n + 1] == pairs[..n] + [pairs[n]];
      TouchPair(pairs[..n], pairs[n], groups, keys);
      keys := AddKey(keys, pairs[n].term);
      groups := Touch(groups, pairs[n].term, pairs[n].ix, 1);
    }
    assert pairs[..|pairs|] == pairs;
  }

  /** Whether the documents of an index are read for terms without hits. */
  predicate Fills(spec: Spec, groups: Groups, ix: Ix)
    requires spec.orders != []
  {
    spec.minDoc == 0 && !(CountDesc(spec) && |InShard(groups, ix)| >= ShardSize(spec))
  }

  /** The terms with hits in an index. */
  function InShard(groups: Groups, ix: Ix): set<Term> {
    set t | t in groups && ix in groups[t] && groups[t][ix] > 0
  }

  method Fill(pairs: seq<Pair>, groups: Groups, keys: seq<Term>, ix: Ix, terms: seq<Term>) returns (groups': Groups, keys': seq<Term>)
    requires Grouped(pairs, groups, keys)
    ensures Grouped(pairs, groups', keys')
    ensures forall t, i :: t in groups && i in groups[t] ==> t in groups' && i in groups'[t]
    ensures forall t :: t in terms ==> t in groups' && ix in groups'[t]
    ensures forall t, i :: t in groups' && i in groups'[t] ==> (t in groups && i in groups[t]) || (i == ix && t in terms)
  {
    groups', keys' := groups, keys;
    for n := 0 to |terms|
      invariant Grouped(pairs, groups', keys')
      invariant forall t, i :: t in groups && i in groups[t] ==> t in groups' && i in groups'[t]
      invariant forall t :: t in terms[..n] ==> t in groups' && ix in groups'[t]
      invariant forall t, i :: t in groups' && i in groups'[t] ==> (t in groups && i in groups[t]) || (i == ix && t in terms[..n])
    {
      assert terms[..n + 1] == terms[..n] + [terms[n]];
      TouchZero(pairs, terms[n], ix, groups', keys');
      keys' := AddKey(keys', terms[n]);
      groups' := Touch(groups', terms[n], ix, 0);
    }
    assert terms[..|terms|] == terms;
  }

  // ---------------------------------------------------------------- one index

  /** The minimum of a candidate; with a single index, shard_min_doc_count does not apply. */
  function Minimum(spec: Spec, indices: nat): (m: nat)
    ensures indices == 1 ==> m == 0
    ensures indices >= 2 ==> m == spec.shardMinDoc
  {
    if indices > 1 then spec.shardMinDoc else 0
  }

  method IndexCandidates(pairs: seq<Pair>, groups: Groups, keys: seq<Term>, ix: Ix, minimum: nat) returns (cands: seq<Bucket>, total: nat)
    requires Grouped(pairs, groups, keys)
    ensures cands == Candidates(groups, keys, ix, |keys|, minimum)
    ensures total == PairsOf(pairs, ix)
  {
    cands, total := [], 0;
    NoKeys(pairs, ix, keys);
    hide SumCounts, Count, PairsOf;
    for n := 0 to |keys|
      invariant cands == Candidates(groups, keys, ix, n, minimum)
      invariant total == SumCounts(pairs, ix, keys[..n])
    {
      var t := keys[n];
      SumCountsNext(pairs, ix, keys, n + 1);
      if ix !in groups[t] {
        NotThere(pairs, groups, keys, ix, t);
        assert cands + [] == cands;
        continue;
      }
      var count := groups[t][ix];
      total := total + count;
      if count < minimum {
        assert cands + [] == cands;
        continue;
      }
      cands := cands + [Bucket(t, count)];
    }
    assert keys[..|keys|] == keys;
    CountsAreComplete(pairs, ix, keys);
  }

  lemma NoKeys(pairs: seq<Pair>, ix: Ix, keys: seq<Term>)
    ensures SumCounts(pairs, ix, keys[..0]) == 0
  {
  }

  /** The merged buckets, as the map and the list of its keys. */
  ghost predicate ListedBy(merged: map<Term, nat>, mergedKeys: seq<Term>, list: seq<Bucket>) {
    && |list| == |mergedKeys| && Distinct(mergedKeys) && (forall t :: t in merged <==> t in mergedKeys)
    && forall i :: 0 <= i < |list| ==> mergedKeys[i] in merged && list[i] == Bucket(mergedKeys[i], merged[mergedKeys[i]])
  }

  method MergeShard(merged: map<Term, nat>, mergedKeys: seq<Term>, shard: seq<Bucket>, ghost list: seq<Bucket>)
    returns (merged': map<Term, nat>, mergedKeys': seq<Term>)
    requires ListedBy(merged, mergedKeys, list)
    ensures ListedBy(merged', mergedKeys', Merge(list, shard))
  {
    merged', mergedKeys' := merged, mergedKeys;
    for n := 0 to |shard|
      invariant ListedBy(merged', mergedKeys', Merge(list, shard[..n]))
    {
      var c := shard[n];
      assert shard[..n + 1][..n] == shard[..n];
      MergeStep(merged', mergedKeys', Merge(list, shard[..n]), c);
      if c.key in merged' {
        merged' := merged'[c.key := merged'[c.key] + c.docCount];
      } else {
        merged', mergedKeys' := merged'[c.key := c.docCount], mergedKeys' + [c.key];
      }
    }
    assert shard[..|shard|] == shard;
  }

  lemma {:induction false} MergeStep(merged: map<Term, nat>, mergedKeys: seq<Term>, list: seq<Bucket>, c: Bucket)
    requires ListedBy(merged, mergedKeys, list)
    ensures if c.key in merged then ListedBy(merged[c.key := merged[c.key] + c.docCount], mergedKeys, MergeOne(list, c))
            else ListedBy(merged[c.key := c.docCount], mergedKeys + [c.key], MergeOne(list, c))
  {
    hide MergeOne;
    if c.key in merged {
      var i :| 0 <= i < |mergedKeys| && mergedKeys[i] == c.key;
      MergeOneAt(list, c, i);
    } else {
      MergeOneAt(list, c, |list|);
    }
  }

  // ---------------------------------------------------------------- all indices

  /**
   * Sub-aggregations are computed from the hits of one index before its buckets are cut off, and from
   * all hits of a bucket that several indices have.
   */
  datatype Stages = Stages(ofIndex: Ix -> Values, ofMerged: Values)

  /** The values that order the merged buckets; those of a single index are kept. */
  function Final(values: Stages, indices: seq<Ix>): Values {
    if |indices| == 1 then values.ofIndex(indices[0]) else values.ofMerged
  }

  /** The merged buckets of the first k indices. */
  function Reduced(spec: Spec, values: Stages, groups: Groups, keys: seq<Term>, indices: seq<Ix>, k: nat): (list: seq<Bucket>)
    requires k <= |indices| && spec.orders != [] && forall t :: t in keys ==> t in groups
    decreases k
  {
    if k == 0 then []
    else
      Merge(Reduced(spec, values, groups, keys, indices, k - 1),
            Shard(spec, values.ofIndex(indices[k - 1]), Candidates(groups, keys, indices[k - 1], |keys|, Minimum(spec, |indices|))))
  }

  /** The pairs of indices without a single candidate: they are counted nowhere. */
  function Lost(pairs: seq<Pair>, spec: Spec, groups: Groups, keys: seq<Term>, indices: seq<Ix>, k: nat): (n: nat)
    requires k <= |indices| && forall t :: t in keys ==> t in groups
    decreases k
  {
    if k == 0 then 0
    else
      Lost(pairs, spec, groups, keys, indices, k - 1)
      + if Candidates(groups, keys, indices[k - 1], |keys|, Minimum(spec, |indices|)) == [] then PairsOf(pairs, indices[k - 1]) else 0
  }

  function SumPairs(pairs: seq<Pair>, indices: seq<Ix>, k: nat): nat
    requires k <= |indices|
    decreases k
  {
    if k == 0 then 0 else SumPairs(pairs, indices, k - 1) + PairsOf(pairs, indices[k - 1])
  }

  /** The buckets that are returned. */
  function Returned(spec: Spec, values: Values, merged: seq<Bucket>): seq<Bucket>
    requires spec.orders != []
  {
    Limited(Sorting.Sort(Before(spec.orders, values), Enough(merged, spec.minDoc)), spec.size)
  }

  method MergeIndices(pairs: seq<Pair>, spec: Spec, values: Stages, indices: seq<Ix>, groups: Groups, keys: seq<Term>)
    returns (merged: map<Term, nat>, mergedKeys: seq<Term>, other: int)
    requires Ordered(spec) && Grouped(pairs, groups, keys)
    ensures ListedBy(merged, mergedKeys, Reduced(spec, values, groups, keys, indices, |indices|))
    ensures SumDocs(Reduced(spec, values, groups, keys, indices, |indices|)) + other + Lost(pairs, spec, groups, keys, indices, |indices|)
         == SumPairs(pairs, indices, |indices|)
  {
    merged, mergedKeys, other := map[], [], 0;
    for k := 0 to |indices|
      invariant ListedBy(merged, mergedKeys, Reduced(spec, values, groups, keys, indices, k))
      invariant SumDocs(Reduced(spec, values, groups, keys, indices, k)) + other + Lost(pairs, spec, groups, keys, indices, k)
             == SumPairs(pairs, indices, k)
    {
      ghost var list := Reduced(spec, values, groups, keys, indices, k);
      var cands, total := IndexCandidates(pairs, groups, keys, indices[k], Minimum(spec, |indices|));
      NothingToMerge(spec, values.ofIndex(indices[k]), list);
      if |cands| == 0 {
        continue;
      }
      var shard := Shard(spec, values.ofIndex(indices[k]), cands);
      merged, mergedKeys := MergeShard(merged, mergedKeys, shard, list);
      MergeSums(list, shard);
      other := other + total - SumDocs(shard);
    }
  }

  lemma NothingToMerge(spec: Spec, values: Values, list: seq<Bucket>)
    requires spec.orders != []
    ensures Merge(list, Shard(spec, values, [])) == list
  {
  }

  /** Every pair belongs to one of the indices. */
  ghost predicate Covered(pairs: seq<Pair>, indices: seq<Ix>) {
    && (forall i, j :: 0 <= i < j < |indices| ==> indices[i] != indices[j])
    && forall p :: p in pairs ==> p.ix in indices
  }

  lemma {:induction false} SumNext(pairs: seq<Pair>, p: Pair, indices: seq<Ix>, k: nat)
    requires k <= |indices| && forall i, j :: 0 <= i < j < |indices| ==> indices[i] != indices[j]
    ensures SumPairs(pairs + [p], indices, k) == SumPairs(pairs, indices, k) + if p.ix in indices[..k] then 1 else 0
    decreases k
  {
    if k > 0 {
      SumNext(pairs, p, indices, k - 1);
      assert (pairs + [p])[..|pairs|] == pairs;
      assert indices[..k] == indices[..k - 1] + [indices[k - 1]];
    }
  }

  lemma {:induction false} AllPairs(pairs: seq<Pair>, indices: seq<Ix>)
    requires Covered(pairs, indices)
    ensures SumPairs(pairs, indices, |indices|) == |pairs|
  {
    if pairs == [] {
      NoPairsAtAll(indices, |indices|);
    } else {
      var init, p := pairs[..|pairs| - 1], pairs[|pairs| - 1];
      assert pairs == init + [p];
      AllPairs(init, indices);
      SumNext(init, p, indices, |indices|);
      assert indices[..|indices|] == indices;
    }
  }

  lemma {:induction false} NoPairsAtAll(indices: seq<Ix>, k: nat)
    requires k <= |indices|
    ensures SumPairs([], indices, k) == 0
  {
    if k > 0 {
      NoPairsAtAll(indices, k - 1);
    }
  }

  // ---------------------------------------------------------------- nothing is lost

  /** No term of the index reaches the minimum. */
  ghost predicate NoneReaches(pairs: seq<Pair>, ix: Ix, minimum: nat) {
    minimum > 0 && forall t :: Count(pairs, ix, t) < minimum
  }

  /** The pairs of indices in which no term reaches shard_min_doc_count. */
  ghost function LostPairs(pairs: seq<Pair>, minimum: nat, indices: seq<Ix>, k: nat): nat
    requires k <= |indices|
    decreases k
  {
    if k == 0 then 0
    else LostPairs(pairs, minimum, indices, k - 1) + if NoneReaches(pairs, indices[k - 1], minimum) then PairsOf(pairs, indices[k - 1]) else 0
  }

  lemma NoCandidates(pairs: seq<Pair>, groups: Groups, keys: seq<Term>, ix: Ix, minimum: nat)
    requires Grouped(pairs, groups, keys)
    ensures Candidates(groups, keys, ix, |keys|, minimum) == [] ==> NoneReaches(pairs, ix, minimum) || PairsOf(pairs, ix) == 0
    ensures NoneReaches(pairs, ix, minimum) ==> Candidates(groups, keys, ix, |keys|, minimum) == []
  {
    var cands := Candidates(groups, keys, ix, |keys|, minimum);
    assert keys[..|keys|] == keys;
    if cands == [] {
      if minimum == 0 {
        CandidatesSum(pairs, groups, keys, ix, |keys|);
        CountsAreComplete(pairs, ix, keys);
      } else {
        forall t ensures Count(pairs, ix, t) < minimum {
          if t in groups && ix in groups[t] {
            CandidateIn(groups, keys, ix, |keys|, minimum, Bucket(t, groups[t][ix]));
          } else {
            NoneCounted(pairs, ix, t);
          }
        }
      }
    }
    if NoneReaches(pairs, ix, minimum) && cands != [] {
      CandidateIn(groups, keys, ix, |keys|, minimum, cands[0]);
    }
  }

  lemma {:induction false} LostAreLost(pairs: seq<Pair>, spec: Spec, groups: Groups, keys: seq<Term>, indices: seq<Ix>, k: nat)
    requires Grouped(pairs, groups, keys) && k <= |indices|
    ensures Lost(pairs, spec, groups, keys, indices, k) == LostPairs(pairs, Minimum(spec, |indices|), indices, k)
    decreases k
  {
    if k > 0 {
      LostAreLost(pairs, spec, groups, keys, indices, k - 1);
      NoCandidates(pairs, groups, keys, indices[k - 1], Minimum(spec, |indices|));
    }
  }

  /** With shard_min_doc_count 0, and with one index, nothing is lost. */
  lemma {:induction false} NothingLost(pairs: seq<Pair>, indices: seq<Ix>, k: nat)
    requires k <= |indices|
    ensures LostPairs(pairs, 0, indices, k) == 0
  {
    if k > 0 {
      NothingLost(pairs, indices, k - 1);
    }
  }

  /** Pairs are lost exactly when some index has pairs and no term that reaches the minimum. */
  lemma {:induction false} LostExactly(pairs: seq<Pair>, minimum: nat, indices: seq<Ix>, k: nat)
    requires k <= |indices|
    ensures LostPairs(pairs, minimum, indices, k) > 0
       <==> exists i :: 0 <= i < k && PairsOf(pairs, indices[i]) > 0 && NoneReaches(pairs, indices[i], minimum)
    decreases k
  {
    if k > 0 {
      LostExactly(pairs, minimum, indices, k - 1);
    }
  }

  /** Two documents with one term in an index, one with another term in a second index: with a minimum of 2 the latter is lost. */
  lemma PairsLost(a: Term, b: Term, pairs: seq<Pair>, indices: seq<Ix>)
    requires a != b && pairs == [Pair(0, a), Pair(0, a), Pair(1, b)] && indices == [0, 1]
    ensures Covered(pairs, indices) && LostPairs(pairs, 2, indices, 2) == 1
  {
    assert pairs[..2] == [Pair(0, a), Pair(0, a)] && pairs[..2][..1] == [Pair(0, a)] && pairs[..2][..1][..0] == [];
    assert Count(pairs[..2][..1], 0, a) == 1 && Count(pairs[..2], 0, a) == 2 && Count(pairs, 0, a) == 2;
    forall t ensures Count(pairs, 1, t) < 2 {
      assert Count(pairs[..2][..1][..0], 1, t) == 0;
      assert Count(pairs[..2][..1], 1, t) == 0 && Count(pairs[..2], 1, t) == 0;
    }
    assert PairsOf(pairs[..2][..1], 1) == 0 && PairsOf(pairs[..2], 1) == 0 && PairsOf(pairs, 1) == 1;
    assert NoneReaches(pairs, 1, 2) && !NoneReaches(pairs, 0, 2);
    hide NoneReaches, PairsOf, Count;
    assert LostPairs(pairs, 2, indices, 0) == 0 && LostPairs(pairs, 2, indices, 1) == 0;
  }

  // ---------------------------------------------------------------- the whole collection

  /** The terms with an entry for the index, after zero counts were filled in. */
  ghost predicate FilledIn(pairs: seq<Pair>, spec: Spec, zero: AllTerms, groups: Groups, ix: Ix)
    requires spec.orders != []
  {
    forall t :: t in groups && ix in groups[t] <==>
      Pair(ix, t) in pairs || (spec.minDoc == 0 && !Skips(pairs, spec, groups, ix) && t in zero(ix))
  }

  /** Enough terms have hits, so that terms without hits cannot be among the first by count. */
  ghost predicate Skips(pairs: seq<Pair>, spec: Spec, groups: Groups, ix: Ix)
    requires spec.orders != []
  {
    CountDesc(spec) && |InShard(groups, ix)| >= ShardSize(spec)
  }

  lemma SameInShard(pairs: seq<Pair>, groups: Groups, keys: seq<Term>, groups': Groups, keys': seq<Term>, ix: Ix)
    requires Grouped(pairs, groups, keys) && Grouped(pairs, groups', keys')
    ensures InShard(groups, ix) == InShard(groups', ix)
  {
    forall t ensures t in InShard(groups, ix) <==> t in InShard(groups', ix) {
      if Pair(ix, t) !in pairs {
        NoneCounted(pairs, ix, t);
      }
    }
  }

  method GroupAll(pairs: seq<Pair>, spec: Spec, indices: seq<Ix>, zero: AllTerms) returns (groups: Groups, keys: seq<Term>)
    requires spec.orders != [] && Covered(pairs, indices)
    ensures Grouped(pairs, groups, keys)
    ensures forall ix :: ix in indices ==> FilledIn(pairs, spec, zero, groups, ix)
  {
    groups, keys := Group(pairs);
    if spec.minDoc != 0 {
      return;
    }
    for k := 0 to |indices|
      invariant Grouped(pairs, groups, keys)
      invariant forall ix :: ix in indices[..k] ==> FilledIn(pairs, spec, zero, groups, ix)
      invariant forall ix :: ix !in indices[..k] ==> forall t :: t in groups && ix in groups[t] <==> Pair(ix, t) in pairs
    {
      var ix := indices[k];
      assert indices[..k + 1] == indices[..k] + [ix] && ix !in indices[..k];
      if !Fills(spec, groups, ix) {
        continue;
      }
      var groups', keys' := Fill(pairs, groups, keys, ix, zero(ix));
      FillKeeps(pairs, spec, zero, groups, keys, groups', keys', ix, indices[..k]);
      groups, keys := groups', keys';
    }
    assert indices[..|indices|] == indices;
  }

  lemma FillKeeps(pairs: seq<Pair>, spec: Spec, zero: AllTerms, groups: Groups, keys: seq<Term>, groups': Groups, keys': seq<Term>, ix: Ix, done: seq<Ix>)
    requires spec.orders != [] && Grouped(pairs, groups, keys) && Grouped(pairs, groups', keys') && ix !in done && Fills(spec, groups, ix)
    requires forall i :: i in done ==> FilledIn(pairs, spec, zero, groups, i)
    requires forall t :: t in groups && ix in groups[t] <==> Pair(ix, t) in pairs
    requires forall t, i :: t in groups && i in groups[t] ==> t in groups' && i in groups'[t]
    requires forall t :: t in zero(ix) ==> t in groups' && ix in groups'[t]
    requires forall t, i :: t in groups' && i in groups'[t] ==> (t in groups && i in groups[t]) || (i == ix && t in zero(ix))
    ensures forall i :: i in done ==> FilledIn(pairs, spec, zero, groups', i)
    ensures FilledIn(pairs, spec, zero, groups', ix)
  {
    SameInShard(pairs, groups, keys, groups', keys', ix);
    forall i | i in done ensures FilledIn(pairs, spec, zero, groups', i) {
      SameInShard(pairs, groups, keys, groups', keys', i);
      assert FilledIn(pairs, spec, zero, groups, i);
    }
  }

  // ---------------------------------------------------------------- what is merged and returned

  ghost function HitTerms(pairs: seq<Pair>, ix: Ix): set<Term> {
    set i | 0 <= i < |pairs| && pairs[i].ix == ix :: pairs[i].term
  }

  /** A term of a hit, or any term of the index when zero counts are asked for and may matter. */
  ghost predicate Offered(pairs: seq<Pair>, spec: Spec, zero: AllTerms, ix: Ix, t: Term)
    requires spec.orders != []
  {
    || Pair(ix, t) in pairs
    || (spec.minDoc == 0 && !(CountDesc(spec) && |HitTerms(pairs, ix)| >= ShardSize(spec)) && t in zero(ix))
  }

  /** The buckets of an index that reach the minimum. */
  ghost function CandidateSet(pairs: seq<Pair>, spec: Spec, zero: AllTerms, ix: Ix, minimum: nat): set<Bucket>
    requires spec.orders != []
  {
    set t | t in HitTerms(pairs, ix) + (set u | u in zero(ix)) && Offered(pairs, spec, zero, ix, t) && Count(pairs, ix, t) >= minimum
      :: Bucket(t, Count(pairs, ix, t))
  }

  /** The term is one of the first ShardSize candidates of the index. */
  ghost predicate Contributed(pairs: seq<Pair>, spec: Spec, values: Values, zero: AllTerms, ix: Ix, minimum: nat, t: Term)
    requires spec.orders != []
  {
    var b, cands := Bucket(t, Count(pairs, ix, t)), CandidateSet(pairs, spec, zero, ix, minimum);
    b in cands && |set c | c in cands && RanksBefore(spec.orders, values, c, b)| < ShardSize(spec)
  }

  /** The pairs of a term in the first k indices, of those that have it among their first candidates. */
  ghost function SumContributed(pairs: seq<Pair>, spec: Spec, values: Stages, zero: AllTerms, indices: seq<Ix>, k: nat, t: Term): nat
    requires k <= |indices| && spec.orders != []
    decreases k
  {
    if k == 0 then 0
    else
      SumContributed(pairs, spec, values, zero, indices, k - 1, t)
      + if Contributed(pairs, spec, values.ofIndex(indices[k - 1]), zero, indices[k - 1], Minimum(spec, |indices|), t) then Count(pairs, indices[k - 1], t) else 0
  }

  ghost predicate SomeContributed(pairs: seq<Pair>, spec: Spec, values: Stages, zero: AllTerms, indices: seq<Ix>, k: nat, t: Term)
    requires k <= |indices| && spec.orders != []
  {
    exists i :: 0 <= i < k && Contributed(pairs, spec, values.ofIndex(indices[i]), zero, indices[i], Minimum(spec, |indices|), t)
  }

  /**
   * One bucket for every term that some index has among its first candidates, with the pairs of the
   * term in all such indices.
   */
  ghost predicate MergedExact(pairs: seq<Pair>, spec: Spec, values: Stages, zero: AllTerms, indices: seq<Ix>, merged: seq<Bucket>)
    requires spec.orders != []
  {
    && DifferentKeys(merged)
    && (forall t :: HasKey(merged, t) <==> SomeContributed(pairs, spec, values, zero, indices, |indices|, t))
    && (forall b :: b in merged ==> b.docCount == SumContributed(pairs, spec, values, zero, indices, |indices|, b.key))
  }

  /** The first `size` of the merged buckets with enough documents, in order. */
  ghost predicate ReturnedExact(spec: Spec, values: Values, merged: seq<Bucket>, final: seq<Bucket>)
    requires spec.orders != []
  {
    && InOrder(spec.orders, values, final)
    && forall b :: b in final <==>
         b in merged && b.docCount >= spec.minDoc
         && |set c | c in merged && c.docCount >= spec.minDoc && RanksBefore(spec.orders, values, c, b)| < spec.size
  }

  /** The terms of an index are of one kind. */
  ghost predicate SingleKinds(pairs: seq<Pair>, zero: AllTerms, indices: seq<Ix>) {
    forall k :: 0 <= k < |indices| ==> SingleKind(pairs, zero, indices[k])
  }

  lemma {:induction false} InShardIsHits(pairs: seq<Pair>, groups: Groups, keys: seq<Term>, ix: Ix)
    requires Grouped(pairs, groups, keys)
    ensures InShard(groups, ix) == HitTerms(pairs, ix)
  {
    forall t ensures t in InShard(groups, ix) <==> t in HitTerms(pairs, ix) {
      if Pair(ix, t) in pairs {
        var i :| 0 <= i < |pairs| && pairs[i] == Pair(ix, t);
        SomeCounted(pairs, ix, t);
      } else {
        NoneCounted(pairs, ix, t);
      }
    }
  }

  lemma {:induction false} CandidatesExact(pairs: seq<Pair>, spec: Spec, zero: AllTerms, groups: Groups, keys: seq<Term>, ix: Ix, minimum: nat, b: Bucket)
    requires spec.orders != [] && Grouped(pairs, groups, keys) && FilledIn(pairs, spec, zero, groups, ix)
    ensures b in Candidates(groups, keys, ix, |keys|, minimum) <==> b in CandidateSet(pairs, spec, zero, ix, minimum)
  {
    InShardIsHits(pairs, groups, keys, ix);
    CandidateIn(groups, keys, ix, |keys|, minimum, b);
    assert keys[..|keys|] == keys;
    hide Candidates, InShard, CountDesc;
    var t := b.key;
    assert Offered(pairs, spec, zero, ix, t) <==> t in groups && ix in groups[t];
    if Pair(ix, t) in pairs {
      var i :| 0 <= i < |pairs| && pairs[i] == Pair(ix, t);
      assert t in HitTerms(pairs, ix);
    }
  }

  /** A bucket is in the shard when it is one of the first candidates. */
  lemma {:induction false} ShardRanks(pairs: seq<Pair>, spec: Spec, values: Values, zero: AllTerms, ix: Ix, cands: seq<Bucket>, b: Bucket)
    requires Ordered(spec) && SingleKind(pairs, zero, ix) && DifferentKeys(cands)
    requires forall c :: c in cands ==> Known(pairs, zero, ix, c.key)
    ensures DifferentKeys(Shard(spec, values, cands)) && forall c :: c in Shard(spec, values, cands) ==> c in cands
    ensures b in Shard(spec, values, cands)
       <==> b in cands && |Sorting.Below(Before(spec.orders, values), cands, b)| < ShardSize(spec)
  {
    hide Known, Before, ShardSize;
    var less := Before(spec.orders, values);
    var sorted, shard := Sorting.Sort(less, cands), Shard(spec, values, cands);
    Sortable(pairs, spec, values, zero, ix, cands);
    assert Distinct(cands);
    hide SingleKind;
    Sorting.FirstByRank(less, cands, ShardSize(spec), b);
    assert shard == sorted[..Sorting.Least(ShardSize(spec), |sorted|)];
    AscendingKeys(spec.orders, values, cands, shard);
  }

  lemma {:induction false} ByKey(pairs: seq<Pair>, ix: Ix, bs: seq<Bucket>, t: Term)
    requires DifferentKeys(bs) && forall c :: c in bs ==> c.docCount == Count(pairs, ix, c.key)
    ensures HasKey(bs, t) <==> Bucket(t, Count(pairs, ix, t)) in bs
    ensures DocsAt(bs, t) == if HasKey(bs, t) then Count(pairs, ix, t) else 0
  {
    DocsOfBucket(bs, t);
    if i :| 0 <= i < |bs| && bs[i].key == t {
      assert bs[i] in bs;
    }
  }

  lemma {:induction false} BelowByRank(pairs: seq<Pair>, spec: Spec, values: Values, zero: AllTerms, ix: Ix, cands: seq<Bucket>, b: Bucket)
    requires spec.orders != [] && SingleKind(pairs, zero, ix) && b in cands && forall c :: c in cands ==> Known(pairs, zero, ix, c.key)
    ensures forall c :: c in Sorting.Below(Before(spec.orders, values), cands, b) <==> c in cands && RanksBefore(spec.orders, values, c, b)
  {
    hide Known;
    forall c | c in cands ensures Before(spec.orders, values)(c, b) <==> RanksBefore(spec.orders, values, c, b) {
      RanksExactly(spec.orders, values, c, b);
    }
  }

  /** What an index contributes. */
  lemma {:induction false} ShardExact(pairs: seq<Pair>, spec: Spec, values: Values, zero: AllTerms, groups: Groups, keys: seq<Term>, ix: Ix, minimum: nat, t: Term)
    requires Ordered(spec) && Grouped(pairs, groups, keys) && FilledIn(pairs, spec, zero, groups, ix) && SingleKind(pairs, zero, ix)
    ensures var shard := Shard(spec, values, Candidates(groups, keys, ix, |keys|, minimum));
            && (HasKey(shard, t) <==> Contributed(pairs, spec, values, zero, ix, minimum, t))
            && DocsAt(shard, t) == if Contributed(pairs, spec, values, zero, ix, minimum, t) then Count(pairs, ix, t) else 0
  {
    var cands, less := Candidates(groups, keys, ix, |keys|, minimum), Before(spec.orders, values);
    var b := Bucket(t, Count(pairs, ix, t));
    CandidatesDiffer(groups, keys, ix, |keys|, minimum);
    forall c ensures c in cands <==> c in CandidateSet(pairs, spec, zero, ix, minimum) {
      CandidatesExact(pairs, spec, zero, groups, keys, ix, minimum, c);
    }
    hide Candidates, Grouped, FilledIn, Shard, Before, SingleKind, HasKey, DocsAt, DifferentKeys;
    forall c | c in cands ensures Known(pairs, zero, ix, c.key) {
    }
    ShardRanks(pairs, spec, values, zero, ix, cands, b);
    if b in cands {
      BelowByRank(pairs, spec, values, zero, ix, cands, b);
      assert Sorting.Below(less, cands, b) == set c | c in CandidateSet(pairs, spec, zero, ix, minimum) && RanksBefore(spec.orders, values, c, b);
    }
    ByKey(pairs, ix, Shard(spec, values, cands), t);
  }

  lemma {:induction false} ReducedDiffers(spec: Spec, values: Stages, groups: Groups, keys: seq<Term>, indices: seq<Ix>, k: nat)
    requires k <= |indices| && spec.orders != [] && forall t :: t in keys ==> t in groups
    ensures DifferentKeys(Reduced(spec, values, groups, keys, indices, k))
    decreases k
  {
    if k > 0 {
      ReducedDiffers(spec, values, groups, keys, indices, k - 1);
      MergeExact(Reduced(spec, values, groups, keys, indices, k - 1),
                 Shard(spec, values.ofIndex(indices[k - 1]), Candidates(groups, keys, indices[k - 1], |keys|, Minimum(spec, |indices|))), Num(0));
    }
  }

  lemma SomeContributedStep(pairs: seq<Pair>, spec: Spec, values: Stages, zero: AllTerms, indices: seq<Ix>, k: nat, t: Term)
    requires 0 < k <= |indices| && spec.orders != []
    ensures SomeContributed(pairs, spec, values, zero, indices, k, t)
       <==> SomeContributed(pairs, spec, values, zero, indices, k - 1, t)
            || Contributed(pairs, spec, values.ofIndex(indices[k - 1]), zero, indices[k - 1], Minimum(spec, |indices|), t)
  {
    hide Contributed;
  }

  lemma {:induction false} ReducedExact(pairs: seq<Pair>, spec: Spec, values: Stages, zero: AllTerms, groups: Groups, keys: seq<Term>, indices: seq<Ix>, k: nat, t: Term)
    requires Ordered(spec) && Grouped(pairs, groups, keys) && k <= |indices| && SingleKinds(pairs, zero, indices)
    requires forall ix :: ix in indices ==> FilledIn(pairs, spec, zero, groups, ix)
    ensures var list := Reduced(spec, values, groups, keys, indices, k);
            && DifferentKeys(list)
            && (HasKey(list, t) <==> SomeContributed(pairs, spec, values, zero, indices, k, t))
            && DocsAt(list, t) == SumContributed(pairs, spec, values, zero, indices, k, t)
    decreases k
  {
    if k > 0 {
      assert forall u :: u in keys ==> u in groups;
      hide HasKey, DocsAt, DifferentKeys, Contributed, FilledIn, SingleKind, Grouped, Candidates, Shard, Merge;
      SomeContributedStep(pairs, spec, values, zero, indices, k, t);
      hide SomeContributed;
      ReducedExact(pairs, spec, values, zero, groups, keys, indices, k - 1, t);
      var minimum := Minimum(spec, |indices|);
      assert indices[k - 1] in indices;
      ShardExact(pairs, spec, values.ofIndex(indices[k - 1]), zero, groups, keys, indices[k - 1], minimum, t);
      var shard := Shard(spec, values.ofIndex(indices[k - 1]), Candidates(groups, keys, indices[k - 1], |keys|, minimum));
      MergeExact(Reduced(spec, values, groups, keys, indices, k - 1), shard, t);
    }
  }

  /** The merged list of the code is the one described above. */
  lemma {:induction false} MergedIsExact(pairs: seq<Pair>, spec: Spec, values: Stages, zero: AllTerms, groups: Groups, keys: seq<Term>, indices: seq<Ix>)
    requires Ordered(spec) && Grouped(pairs, groups, keys) && SingleKinds(pairs, zero, indices)
    requires forall ix :: ix in indices ==> FilledIn(pairs, spec, zero, groups, ix)
    ensures MergedExact(pairs, spec, values, zero, indices, Reduced(spec, values, groups, keys, indices, |indices|))
  {
    assert forall u :: u in keys ==> u in groups;
    hide SomeContributed, SumContributed, FilledIn, SingleKind, Grouped, Reduced, DifferentKeys, HasKey, MergedExact, DocsAt;
    var merged := Reduced(spec, values, groups, keys, indices, |indices|);
    assert DifferentKeys(merged) by {
      var t: Term := Num(0);
      ReducedExact(pairs, spec, values, zero, groups, keys, indices, |indices|, t);
    }
    forall t ensures (HasKey(merged, t) <==> SomeContributed(pairs, spec, values, zero, indices, |indices|, t))
                     && DocsAt(merged, t) == SumContributed(pairs, spec, values, zero, indices, |indices|, t) {
      ReducedExact(pairs, spec, values, zero, groups, keys, indices, |indices|, t);
    }
    ExactByKey(pairs, spec, values, zero, indices, merged);
  }

  lemma {:induction false} ExactByKey(pairs: seq<Pair>, spec: Spec, values: Stages, zero: AllTerms, indices: seq<Ix>, merged: seq<Bucket>)
    requires spec.orders != []
    requires DifferentKeys(merged)
    requires forall t :: (HasKey(merged, t) <==> SomeContributed(pairs, spec, values, zero, indices, |indices|, t))
                         && DocsAt(merged, t) == SumContributed(pairs, spec, values, zero, indices, |indices|, t)
    ensures MergedExact(pairs, spec, values, zero, indices, merged)
  {
    hide SomeContributed, SumContributed, DifferentKeys, HasKey, DocsAt;
    forall b | b in merged ensures b.docCount == SumContributed(pairs, spec, values, zero, indices, |indices|, b.key) {
      DocsOfBucket(merged, b.key);
    }
  }

  /** The order of the returned buckets depends on nothing but the merged ones. */
  lemma {:induction false} ReturnedIsExact(spec: Spec, values: Values, merged: seq<Bucket>)
    requires Ordered(spec) && DifferentKeys(merged) && OneKind(merged)
    ensures ReturnedExact(spec, values, merged, Returned(spec, values, merged))
  {
    var less, enough := Before(spec.orders, values), Enough(merged, spec.minDoc);
    var sorted, final := Sorting.Sort(less, enough), Returned(spec, values, merged);
    EnoughKeeps(merged, spec.minDoc);
    OrderIsTotal(spec.orders, values, enough);
    Sorting.SortAscends(less, enough);
    assert final == sorted[..Sorting.Least(spec.size, |sorted|)];
    forall b ensures b in final <==> b in enough && |Sorting.Below(less, enough, b)| < spec.size {
      Sorting.FirstByRank(less, enough, spec.size, b);
    }
    Sorting.SortMembers(less, enough);
    forall a, b | a in merged && b in merged ensures less(a, b) <==> RanksBefore(spec.orders, values, a, b) {
      RanksExactly(spec.orders, values, a, b);
    }
    hide Before, RanksBefore;
    forall i, j | 0 <= i < j < |final| ensures RanksBefore(spec.orders, values, final[i], final[j]) {
      assert final[i] in sorted && final[j] in sorted;
    }
    forall b | b in merged
      ensures Sorting.Below(less, enough, b) == set c | c in merged && c.docCount >= spec.minDoc && RanksBefore(spec.orders, values, c, b) {
    }
  }

  lemma {:induction false} EnoughKeeps(bs: seq<Bucket>, minDoc: nat)
    ensures forall b :: b in Enough(bs, minDoc) <==> b in bs && b.docCount >= minDoc
    ensures DifferentKeys(bs) ==> DifferentKeys(Enough(bs, minDoc))
  {
    if bs != [] {
      var init, last := bs[..|bs| - 1], bs[|bs| - 1];
      EnoughKeeps(init, minDoc);
      assert bs == init + [last];
    }
  }

  /** The merged buckets that have enough documents. */
  method EnoughDocs(merged: map<Term, nat>, mergedKeys: seq<Term>, minDoc: nat, ghost list: seq<Bucket>) returns (final: seq<Bucket>)
    requires ListedBy(merged, mergedKeys, list)
    ensures final == Enough(list, minDoc)
  {
    final := [];
    for i := 0 to |mergedKeys|
      invariant final == Enough(list[..i], minDoc)
    {
      var b := Bucket(mergedKeys[i], merged[mergedKeys[i]]);
      assert b == list[i] && list[..i + 1][..i] == list[..i];
      if b.docCount < minDoc {
        assert final + [] == final;
        continue;
      }
      final := final + [b];
    }
    assert list[..|list|] == list;
  }

  /**
   * Every accepted pair is counted once: in a returned bucket, in sum_other_doc_count, in a merged
   * bucket that min_doc_count drops, or in an index without a candidate.
   */
  method CollectTerms(pairs: seq<Pair>, spec: Spec, values: Stages, indices: seq<Ix>, zero: AllTerms)
    returns (final: seq<Bucket>, other: int, ghost merged: seq<Bucket>, ghost groups: Groups, ghost keys: seq<Term>)
    requires Ordered(spec) && Covered(pairs, indices)
    ensures Grouped(pairs, groups, keys) && forall ix :: ix in indices ==> FilledIn(pairs, spec, zero, groups, ix)
    ensures merged == Reduced(spec, values, groups, keys, indices, |indices|)
    ensures SingleKinds(pairs, zero, indices) ==> MergedExact(pairs, spec, values, zero, indices, merged)
    ensures final == Returned(spec, Final(values, indices), merged)
    ensures DifferentKeys(merged) && (OneKind(merged) ==> ReturnedExact(spec, Final(values, indices), merged, final))
    ensures SumDocs(final) + other + Dropped(merged, spec.minDoc) + LostPairs(pairs, Minimum(spec, |indices|), indices, |indices|) == |pairs|
    ensures |indices| == 1 && CountDesc(spec) && SingleKind(pairs, zero, indices[0]) ==>
              forall all :: IndexBuckets(pairs, spec, zero, indices[0], all) ==>
                final == Best(spec, Final(values, indices), all) && ReturnedExact(spec, Final(values, indices), all, final)
  {
    hide MergedExact, ReturnedExact;
    var counts, terms := GroupAll(pairs, spec, indices, zero);
    groups, keys := counts, terms;
    var byTerm, mergedKeys;
    byTerm, mergedKeys, other := MergeIndices(pairs, spec, values, indices, counts, terms);
    merged := Reduced(spec, values, groups, keys, indices, |indices|);
    LostAreLost(pairs, spec, groups, keys, indices, |indices|);
    AllPairs(pairs, indices);
    final := EnoughDocs(byTerm, mergedKeys, spec.minDoc, merged);
    EnoughSums(merged, spec.minDoc);
    if SingleKinds(pairs, zero, indices) {
      MergedIsExact(pairs, spec, values, zero, groups, keys, indices);
    }
    ReducedDiffers(spec, values, groups, keys, indices, |indices|);
    if OneKind(merged) {
      ReturnedIsExact(spec, Final(values, indices), merged);
    }
    SortSums(Before(spec.orders, Final(values, indices)), final);
    final := Sorting.Sort(Before(spec.orders, Final(values, indices)), final);
    if |indices| == 1 && CountDesc(spec) && SingleKind(pairs, zero, indices[0]) {
      forall all | IndexBuckets(pairs, spec, zero, indices[0], all)
        ensures Returned(spec, Final(values, indices), merged) == Best(spec, Final(values, indices), all)
        ensures ReturnedExact(spec, Final(values, indices), all, Best(spec, Final(values, indices), all)) {
        ExactTop(pairs, spec, values, indices, groups, keys, zero, all);
        IndexOfOneKind(pairs, spec, zero, indices[0], all);
        BestIsExact(spec, Final(values, indices), all);
      }
    }
    final, other := CutOff(final, spec.size, other);
  }

  /** The buckets after the first `size` go to the others. */
  method CutOff(bs: seq<Bucket>, size: nat, before: int) returns (first: seq<Bucket>, other: int)
    ensures first == Limited(bs, size) && SumDocs(first) + other == SumDocs(bs) + before
  {
    if |bs| <= size {
      return bs, before;
    }
    SumSplits(bs[..size], bs[size..]);
    assert bs == bs[..size] + bs[size..];
    return bs[..size], before + SumDocs(bs[size..]);
  }

  // ---------------------------------------------------------------- the best terms of a single index

  ghost predicate SingleKind(pairs: seq<Pair>, zero: AllTerms, ix: Ix) {
    forall s, t :: Known(pairs, zero, ix, s) && Known(pairs, zero, ix, t) ==> SameKind(s, t)
  }

  ghost predicate Known(pairs: seq<Pair>, zero: AllTerms, ix: Ix, t: Term) { Pair(ix, t) in pairs || t in zero(ix) }

  /** All terms of an index with their counts, including zero counts when they are asked for. */
  ghost predicate IndexBuckets(pairs: seq<Pair>, spec: Spec, zero: AllTerms, ix: Ix, all: seq<Bucket>) {
    && DifferentKeys(all)
    && forall b :: b in all <==> b.docCount == Count(pairs, ix, b.key) && (Pair(ix, b.key) in pairs || (spec.minDoc == 0 && b.key in zero(ix)))
  }

  /** The first `size` buckets with enough documents, of all buckets in order. */
  ghost function Best(spec: Spec, values: Values, all: seq<Bucket>): seq<Bucket>
    requires spec.orders != []
  {
    Limited(Enough(Sorting.Sort(Before(spec.orders, values), all), spec.minDoc), spec.size)
  }

  lemma Sortable(pairs: seq<Pair>, spec: Spec, values: Values, zero: AllTerms, ix: Ix, bs: seq<Bucket>)
    requires Ordered(spec) && SingleKind(pairs, zero, ix) && DifferentKeys(bs)
    requires forall b :: b in bs ==> Known(pairs, zero, ix, b.key)
    ensures Sorting.Total(Before(spec.orders, values), bs)
    ensures var sorted := Sorting.Sort(Before(spec.orders, values), bs);
            && Sorting.Ascending(Before(spec.orders, values), sorted) && Sorting.Total(Before(spec.orders, values), sorted)
            && |sorted| == |bs| && forall b :: b in sorted <==> b in bs
  {
    OrderIsTotal(spec.orders, values, bs);
    assert Distinct(bs);
    Sorting.SortAscends(Before(spec.orders, values), bs);
    Sorting.SortMembers(Before(spec.orders, values), bs);
    Sorting.TotalOnPart(Before(spec.orders, values), bs, Sorting.Sort(Before(spec.orders, values), bs));
  }

  /** The shard has the first buckets of the whole index. */
  lemma ShardIsFirst(pairs: seq<Pair>, spec: Spec, values: Values, zero: AllTerms, ix: Ix, groups: Groups, keys: seq<Term>, all: seq<Bucket>)
    requires Ordered(spec) && CountDesc(spec) && SingleKind(pairs, zero, ix) && Grouped(pairs, groups, keys)
    requires FilledIn(pairs, spec, zero, groups, ix) && IndexBuckets(pairs, spec, zero, ix, all)
    ensures Shard(spec, values, Candidates(groups, keys, ix, |keys|, 0))
         == Limited(Sorting.Sort(Before(spec.orders, values), all), ShardSize(spec))
  {
    if spec.minDoc == 0 && Skips(pairs, spec, groups, ix) {
      ShardWithHits(pairs, spec, values, zero, ix, groups, keys, all);
    } else {
      ShardWithAll(pairs, spec, values, zero, ix, groups, keys, all);
    }
  }

  lemma ShardWithAll(pairs: seq<Pair>, spec: Spec, values: Values, zero: AllTerms, ix: Ix, groups: Groups, keys: seq<Term>, all: seq<Bucket>)
    requires Ordered(spec) && CountDesc(spec) && SingleKind(pairs, zero, ix) && Grouped(pairs, groups, keys)
    requires FilledIn(pairs, spec, zero, groups, ix) && IndexBuckets(pairs, spec, zero, ix, all)
    requires !(spec.minDoc == 0 && Skips(pairs, spec, groups, ix))
    ensures Sorting.Sort(Before(spec.orders, values), Candidates(groups, keys, ix, |keys|, 0)) == Sorting.Sort(Before(spec.orders, values), all)
  {
    var cands := Candidates(groups, keys, ix, |keys|, 0);
    CandidatesDiffer(groups, keys, ix, |keys|, 0);
    CandidatesAreKnown(pairs, spec, zero, ix, groups, keys);
    forall b ensures b in cands <==> b in all {
      CandidateIn(groups, keys, ix, |keys|, 0, b);
      assert keys[..|keys|] == keys;
    }
    hide Candidates, SingleKind, Grouped, FilledIn, IndexBuckets;
    SortedSame(pairs, spec, values, zero, ix, cands, all);
  }

  lemma SortedSame(pairs: seq<Pair>, spec: Spec, values: Values, zero: AllTerms, ix: Ix, a: seq<Bucket>, b: seq<Bucket>)
    requires Ordered(spec) && SingleKind(pairs, zero, ix) && DifferentKeys(a) && DifferentKeys(b)
    requires (forall x :: x in a ==> Known(pairs, zero, ix, x.key)) && forall x :: x in a <==> x in b
    ensures Sorting.Sort(Before(spec.orders, values), a) == Sorting.Sort(Before(spec.orders, values), b)
  {
    Sortable(pairs, spec, values, zero, ix, a);
    Sortable(pairs, spec, values, zero, ix, b);
    Sorting.AscendingUnique(Before(spec.orders, values), Sorting.Sort(Before(spec.orders, values), a), Sorting.Sort(Before(spec.orders, values), b));
  }

  lemma ShardWithHits(pairs: seq<Pair>, spec: Spec, values: Values, zero: AllTerms, ix: Ix, groups: Groups, keys: seq<Term>, all: seq<Bucket>)
    requires Ordered(spec) && CountDesc(spec) && SingleKind(pairs, zero, ix) && Grouped(pairs, groups, keys)
    requires FilledIn(pairs, spec, zero, groups, ix) && IndexBuckets(pairs, spec, zero, ix, all)
    requires spec.minDoc == 0 && Skips(pairs, spec, groups, ix)
    ensures Shard(spec, values, Candidates(groups, keys, ix, |keys|, 0))
         == Limited(Sorting.Sort(Before(spec.orders, values), all), ShardSize(spec))
  {
    var cands := Candidates(groups, keys, ix, |keys|, 0);
    var sorted := Sorting.Sort(Before(spec.orders, values), all);
    CandidatesDiffer(groups, keys, ix, |keys|, 0);
    CandidatesAreKnown(pairs, spec, zero, ix, groups, keys);
    Sortable(pairs, spec, values, zero, ix, all);
    SortedFalls(spec.orders, values, sorted);
    var q := SplitExists(sorted, 1);
    OnlyWithHits(pairs, spec, zero, ix, groups, keys, all, sorted, q);
    ManyCandidates(pairs, groups, keys, ix);
    hide Candidates, Grouped, FilledIn, IndexBuckets, Falling, SplitsAt, InShard;
    FirstSorted(pairs, spec, values, zero, ix, cands, sorted, q);
  }

  lemma FirstSorted(pairs: seq<Pair>, spec: Spec, values: Values, zero: AllTerms, ix: Ix, cands: seq<Bucket>, sorted: seq<Bucket>, q: nat)
    requires Ordered(spec) && SingleKind(pairs, zero, ix) && DifferentKeys(cands) && (forall b :: b in cands ==> Known(pairs, zero, ix, b.key))
    requires q <= |sorted| && (forall b :: b in sorted[..q] <==> b in cands) && |cands| >= ShardSize(spec)
    requires Sorting.Ascending(Before(spec.orders, values), sorted) && Sorting.Total(Before(spec.orders, values), sorted)
    ensures Shard(spec, values, cands) == Limited(sorted, ShardSize(spec))
  {
    var less := Before(spec.orders, values);
    Sortable(pairs, spec, values, zero, ix, cands);
    Sorting.TotalOnPart(less, sorted, sorted[..q]);
    Sorting.AscendingUnique(less, sorted[..q], Sorting.Sort(less, cands));
    assert |sorted[..q]| == |cands|;
  }

  lemma CandidatesAreKnown(pairs: seq<Pair>, spec: Spec, zero: AllTerms, ix: Ix, groups: Groups, keys: seq<Term>)
    requires spec.orders != [] && Grouped(pairs, groups, keys) && FilledIn(pairs, spec, zero, groups, ix)
    ensures forall b :: b in Candidates(groups, keys, ix, |keys|, 0) ==> Known(pairs, zero, ix, b.key)
  {
    forall b | b in Candidates(groups, keys, ix, |keys|, 0) ensures Known(pairs, zero, ix, b.key) {
      CandidateIn(groups, keys, ix, |keys|, 0, b);
      assert keys[..|keys|] == keys;
    }
  }

  /** When zero counts were not filled in, the candidates are the buckets with hits. */
  lemma OnlyWithHits(pairs: seq<Pair>, spec: Spec, zero: AllTerms, ix: Ix, groups: Groups, keys: seq<Term>, all: seq<Bucket>, sorted: seq<Bucket>, q: nat)
    requires spec.orders != [] && Grouped(pairs, groups, keys) && spec.minDoc == 0 && Skips(pairs, spec, groups, ix)
    requires FilledIn(pairs, spec, zero, groups, ix) && IndexBuckets(pairs, spec, zero, ix, all)
    requires (forall b :: b in sorted <==> b in all) && Falling(sorted) && SplitsAt(sorted, 1, q)
    ensures forall b :: b in sorted[..q] <==> b in Candidates(groups, keys, ix, |keys|, 0)
  {
    assert keys[..|keys|] == keys;
    forall b ensures b in sorted[..q] <==> b in Candidates(groups, keys, ix, |keys|, 0) {
      CandidateIn(groups, keys, ix, |keys|, 0, b);
      if Pair(ix, b.key) !in pairs {
        NoneCounted(pairs, ix, b.key);
      } else {
        SomeCounted(pairs, ix, b.key);
      }
      if b in sorted && b.docCount >= 1 {
        var i :| 0 <= i < |sorted| && sorted[i] == b;
        assert i < q;
      }
    }
  }

  lemma {:induction false} SomeCounted(pairs: seq<Pair>, ix: Ix, t: Term)
    requires Pair(ix, t) in pairs
    ensures Count(pairs, ix, t) > 0
  {
    if pairs[|pairs| - 1] != Pair(ix, t) {
      SomeCounted(pairs[..|pairs| - 1], ix, t);
    }
  }

  lemma ManyCandidates(pairs: seq<Pair>, groups: Groups, keys: seq<Term>, ix: Ix)
    requires Grouped(pairs, groups, keys)
    ensures |Candidates(groups, keys, ix, |keys|, 0)| >= |InShard(groups, ix)|
  {
    var cands := Candidates(groups, keys, ix, |keys|, 0);
    assert keys[..|keys|] == keys;
    forall t | t in InShard(groups, ix) ensures exists i :: 0 <= i < |cands| && cands[i].key == t {
      CandidateIn(groups, keys, ix, |keys|, 0, Bucket(t, groups[t][ix]));
    }
    FewTerms(cands, InShard(groups, ix));
  }

  lemma {:induction false} FewTerms(bs: seq<Bucket>, terms: set<Term>)
    requires forall t :: t in terms ==> exists i :: 0 <= i < |bs| && bs[i].key == t
    ensures |terms| <= |bs|
    decreases |bs|
  {
    if bs == [] {
      assert terms == {};
    } else {
      var n := |bs| - 1;
      var rest := terms - {bs[n].key};
      forall t | t in rest ensures exists i :: 0 <= i < n && bs[..n][i].key == t {
        var i :| 0 <= i < |bs| && bs[i].key == t;
        assert bs[..n][i].key == t;
      }
      FewTerms(bs[..n], rest);
      assert terms <= rest + {bs[n].key};
      AtMostOneMore(terms, rest, bs[n].key);
    }
  }

  lemma AtMostOneMore(terms: set<Term>, rest: set<Term>, t: Term)
    requires rest == terms - {t}
    ensures |terms| <= |rest| + 1
  {
    if t in terms {
      assert terms == rest + {t};
    } else {
      assert terms == rest;
    }
  }

  /** For one index and counts falling, exactly the best terms come back. */
  lemma ExactTop(pairs: seq<Pair>, spec: Spec, values: Stages, indices: seq<Ix>, groups: Groups, keys: seq<Term>, zero: AllTerms, all: seq<Bucket>)
    requires Ordered(spec) && CountDesc(spec) && |indices| == 1 && SingleKind(pairs, zero, indices[0]) && Grouped(pairs, groups, keys)
    requires FilledIn(pairs, spec, zero, groups, indices[0]) && IndexBuckets(pairs, spec, zero, indices[0], all)
    ensures Returned(spec, Final(values, indices), Reduced(spec, values, groups, keys, indices, 1)) == Best(spec, Final(values, indices), all)
  {
    var ix := indices[0];
    var own := values.ofIndex(ix);
    var less := Before(spec.orders, own);
    var sorted := Sorting.Sort(less, all);
    var first := Limited(sorted, ShardSize(spec));
    ShardIsFirst(pairs, spec, own, zero, ix, groups, keys, all);
    Sortable(pairs, spec, own, zero, ix, all);
    AscendingKeys(spec.orders, own, all, first);
    MergeIntoNothing(first);
    OnlyIndex(spec, values, groups, keys, indices, first);
    ReturnedIsBest(spec, own, sorted, ShardSize(spec));
  }

  lemma IndexOfOneKind(pairs: seq<Pair>, spec: Spec, zero: AllTerms, ix: Ix, all: seq<Bucket>)
    requires SingleKind(pairs, zero, ix) && IndexBuckets(pairs, spec, zero, ix, all)
    ensures OneKind(all)
  {
    forall b | b in all ensures Known(pairs, zero, ix, b.key) {
    }
  }

  /** The best are the first by rank with enough documents, as in what is returned. */
  lemma BestIsExact(spec: Spec, values: Values, all: seq<Bucket>)
    requires Ordered(spec) && DifferentKeys(all) && OneKind(all)
    ensures ReturnedExact(spec, values, all, Best(spec, values, all))
  {
    var less := Before(spec.orders, values);
    var sorted, enough := Sorting.Sort(less, all), Enough(all, spec.minDoc);
    OrderIsTotal(spec.orders, values, all);
    assert Distinct(all);
    Sorting.SortAscends(less, all);
    Sorting.SortMembers(less, all);
    EnoughKeeps(all, spec.minDoc);
    EnoughKeeps(sorted, spec.minDoc);
    EnoughAscends(less, sorted, spec.minDoc);
    OrderIsTotal(spec.orders, values, enough);
    Sorting.SortAscends(less, enough);
    Sorting.SortMembers(less, enough);
    Sorting.TotalOnPart(less, enough, Sorting.Sort(less, enough));
    Sorting.AscendingUnique(less, Sorting.Sort(less, enough), Enough(sorted, spec.minDoc));
    ReturnedIsExact(spec, values, all);
  }

  lemma {:induction false} EnoughAscends(less: (Bucket, Bucket) -> bool, bs: seq<Bucket>, minDoc: nat)
    requires Sorting.Ascending(less, bs)
    ensures Sorting.Ascending(less, Enough(bs, minDoc))
  {
    if bs != [] {
      var n := |bs| - 1;
      EnoughAscends(less, bs[..n], minDoc);
      EnoughKeeps(bs[..n], minDoc);
      forall b | b in Enough(bs[..n], minDoc) ensures less(b, bs[n]) {
        assert b in bs[..n];
      }
    }
  }

  lemma OnlyIndex(spec: Spec, values: Stages, groups: Groups, keys: seq<Term>, indices: seq<Ix>, first: seq<Bucket>)
    requires spec.orders != [] && |indices| == 1 && (forall t :: t in keys ==> t in groups)
    requires first == Shard(spec, values.ofIndex(indices[0]), Candidates(groups, keys, indices[0], |keys|, 0))
    ensures Reduced(spec, values, groups, keys, indices, 1) == Merge([], first)
  {
    hide Shard;
    assert Reduced(spec, values, groups, keys, indices, 0) == [];
  }

  /** Filtering and sorting the first buckets again changes nothing. */
  lemma ReturnedIsBest(spec: Spec, values: Values, sorted: seq<Bucket>, larger: nat)
    requires spec.orders != [] && CountDesc(spec) && larger >= spec.size
    requires Sorting.Ascending(Before(spec.orders, values), sorted) && Sorting.Total(Before(spec.orders, values), sorted)
    ensures Returned(spec, values, Limited(sorted, larger)) == Limited(Enough(sorted, spec.minDoc), spec.size)
  {
    hide Before;
    var first := Limited(sorted, larger);
    SortedFalls(spec.orders, values, sorted);
    var p := SplitExists(first, spec.minDoc);
    EnoughFirst(first, spec.minDoc, p, |first|);
    TakeTake(first, |first|, |first|);
    Sorting.TotalOnPart(Before(spec.orders, values), sorted, first[..p]);
    Sorting.SortSorted(Before(spec.orders, values), first[..p]);
    hide Enough, Falling, SplitsAt, Sorting.Sort, Sorting.Total, Sorting.Ascending;
    CutTwice(sorted, spec.minDoc, larger, spec.size);
  }

  lemma AscendingKeys(orders: seq<Order>, values: Values, all: seq<Bucket>, first: seq<Bucket>)
    requires DifferentKeys(all) && Sorting.Total(Before(orders, values), all)
    requires Sorting.Ascending(Before(orders, values), first) && forall b :: b in first ==> b in all
    ensures DifferentKeys(first)
  {
    forall i, j | 0 <= i < j < |first| ensures first[i].key != first[j].key {
      assert first[i] in all && first[j] in all && Before(orders, values)(first[i], first[j]);
      var k :| 0 <= k < |all| && all[k] == first[i];
      var l :| 0 <= l < |all| && all[l] == first[j];
      assert k != l;
    }
  }
}

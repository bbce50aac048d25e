/**
 * Composite buckets and their pages, collectComposite in internal/engine/aggs_composite.go: the
 * tuples of source values of all hits are grouped, sorted, cut off at the `after` key and limited.
 *
 * Tuples are grouped by equality, where the source groups by their JSON text.
 */
module Composite {
  import opened CompositeOrder
  import opened Lists
  import opened Options

  /** A hit: its values of every source. */
  type Hit = seq<seq<Value>>

  datatype Bucket = Bucket(docCount: nat, hits: seq<nat>)

  // ---------------------------------------------------------------- the tuples of a hit

  /** The values of a source that has a missing bucket are never empty. */
  function ValuesAt(src: Source, values: seq<Value>): seq<Value> {
    if values == [] && src.missingBucket then [Missing] else values
  }

  function AppendEach(p: Key, values: seq<Value>): seq<Key> {
    if values == [] then [] else AppendEach(p, values[..|values| - 1]) + [p + [values[|values| - 1]]]
  }

  function Cross(parts: seq<Key>, values: seq<Value>): (next: seq<Key>) {
    if parts == [] then [] else Cross(parts[..|parts| - 1], values) + AppendEach(parts[|parts| - 1], values)
  }

  /** The combinations of the values of the first n sources; none when a source has no value. */
  function Tuples(sources: seq<Source>, hit: Hit, n: nat): (parts: seq<Key>)
    requires n <= |sources| == |hit|
    decreases n
  {
    if n == 0 then [[]]
    else Cross(Tuples(sources, hit, n - 1), ValuesAt(sources[n - 1], hit[n - 1]))
  }

  method HitTuples(sources: seq<Source>, hit: Hit) returns (parts: seq<Key>)
    requires |sources| == |hit|
    ensures parts == Tuples(sources, hit, |sources|)
  {
    parts := [[]];
    for i := 0 to |sources|
      invariant parts == Tuples(sources, hit, i)
    {
      var values := hit[i];
      if |values| == 0 {
        if !sources[i].missingBucket {
          NoTuples(sources, hit, i);
          return [];
        }
        values := [Missing];
      }
      parts := Combine(parts, values);
    }
  }

  /** Every tuple so far with every value. */
  method Combine(parts: seq<Key>, values: seq<Value>) returns (next: seq<Key>)
    ensures next == Cross(parts, values)
  {
    next := [];
    for p := 0 to |parts|
      invariant next == Cross(parts[..p], values)
    {
      assert parts[..p + 1][..p] == parts[..p];
      ghost var before := next;
      for v := 0 to |values|
        invariant next == before + AppendEach(parts[p], values[..v])
      {
        assert values[..v + 1][..v] == values[..v];
        next := next + [parts[p] + [values[v]]];
      }
      assert values[..|values|] == values;
    }
    assert parts[..|parts|] == parts;
  }

  lemma {:induction false} CrossNothing(parts: seq<Key>)
    ensures Cross(parts, []) == []
  {
    if parts != [] {
      CrossNothing(parts[..|parts| - 1]);
    }
  }

  lemma NoTuples(sources: seq<Source>, hit: Hit, i: nat)
    requires i < |sources| == |hit| && hit[i] == [] && !sources[i].missingBucket
    ensures Tuples(sources, hit, |sources|) == []
  {
    CrossNothing(Tuples(sources, hit, i));
    NoTuplesLater(sources, hit, i + 1, |sources|);
  }

  lemma NoTuplesNext(sources: seq<Source>, hit: Hit, n: nat)
    requires n < |sources| == |hit| && Tuples(sources, hit, n) == []
    ensures Tuples(sources, hit, n + 1) == []
  {
  }

  lemma {:induction false} NoTuplesLater(sources: seq<Source>, hit: Hit, n: nat, m: nat)
    requires n <= m <= |sources| == |hit| && Tuples(sources, hit, n) == []
    ensures Tuples(sources, hit, m) == []
    decreases m
  {
    hide Tuples;
    if n < m {
      NoTuplesLater(sources, hit, n, m - 1);
      NoTuplesNext(sources, hit, m - 1);
    }
  }

  lemma {:induction false} AppendExact(p: Key, values: seq<Value>, k: Key)
    ensures k in AppendEach(p, values) <==> k != [] && k[..|k| - 1] == p && k[|k| - 1] in values
  {
    if values != [] {
      var n := |values| - 1;
      AppendExact(p, values[..n], k);
      assert values == values[..n] + [values[n]];
      if k != [] && k[..|k| - 1] == p {
        assert k == p + [k[|k| - 1]];
      }
    }
  }

  lemma {:induction false} CrossExact(parts: seq<Key>, values: seq<Value>, k: Key)
    ensures k in Cross(parts, values) <==> k != [] && k[..|k| - 1] in parts && k[|k| - 1] in values
  {
    if parts != [] {
      var n := |parts| - 1;
      CrossExact(parts[..n], values, k);
      assert parts == parts[..n] + [parts[n]];
      AppendExact(parts[n], values, k);
    }
  }

  /** One value of each of the first n sources. */
  ghost predicate TakesOne(sources: seq<Source>, hit: Hit, n: nat, k: Key)
    requires n <= |sources| == |hit|
  {
    |k| == n && forall i :: 0 <= i < n ==> k[i] in ValuesAt(sources[i], hit[i])
  }

  lemma TakesOneMore(sources: seq<Source>, hit: Hit, n: nat, k: Key)
    requires 0 < n <= |sources| == |hit| && k != []
    ensures TakesOne(sources, hit, n, k)
       <==> TakesOne(sources, hit, n - 1, k[..|k| - 1]) && k[|k| - 1] in ValuesAt(sources[n - 1], hit[n - 1])
  {
    var init := k[..|k| - 1];
    if TakesOne(sources, hit, n - 1, init) && k[|k| - 1] in ValuesAt(sources[n - 1], hit[n - 1]) {
      forall i | 0 <= i < n ensures k[i] in ValuesAt(sources[i], hit[i]) {
        assert i < n - 1 ==> k[i] == init[i];
      }
    }
  }

  /** The tuples of a hit are exactly those that take one value of every source. */
  lemma {:induction false} TuplesExact(sources: seq<Source>, hit: Hit, n: nat, k: Key)
    requires n <= |sources| == |hit|
    ensures k in Tuples(sources, hit, n) <==> TakesOne(sources, hit, n, k)
    decreases n
  {
    if n > 0 {
      CrossExact(Tuples(sources, hit, n - 1), ValuesAt(sources[n - 1], hit[n - 1]), k);
      if k != [] {
        TuplesExact(sources, hit, n - 1, k[..|k| - 1]);
        TakesOneMore(sources, hit, n, k);
      }
    }
  }

  // ---------------------------------------------------------------- grouping

  /** The tuples of every hit. */
  function AllTuples(sources: seq<Source>, hits: seq<Hit>): (all: seq<seq<Key>>)
    requires Shaped(sources, hits)
    ensures |all| == |hits|
  {
    if hits == [] then []
    else AllTuples(sources, hits[..|hits| - 1]) + [Tuples(sources, hits[|hits| - 1], |sources|)]
  }

  predicate Shaped(sources: seq<Source>, hits: seq<Hit>) { forall h :: h in hits ==> |h| == |sources| }

  /** The tuples of a list of hits, with repetitions. */
  ghost function Occurrences(all: seq<seq<Key>>): multiset<Key> {
    if all == [] then multiset{} else Occurrences(all[..|all| - 1]) + multiset(all[|all| - 1])
  }

  /** The hits that have the tuple, in their order. */
  ghost function HitsWith(all: seq<seq<Key>>, k: Key): seq<nat> {
    if all == [] then []
    else HitsWith(all[..|all| - 1], k) + if k in all[|all| - 1] then [|all| - 1] else []
  }

  /** In increasing order, exactly the positions of the hits with the tuple. */
  lemma {:induction false} HitsWithExact(all: seq<seq<Key>>, k: Key)
    ensures forall i, j :: 0 <= i < j < |HitsWith(all, k)| ==> HitsWith(all, k)[i] < HitsWith(all, k)[j]
    ensures forall i: nat :: i in HitsWith(all, k) <==> i < |all| && k in all[i]
  {
    if all != [] {
      var n := |all| - 1;
      HitsWithExact(all[..n], k);
      assert forall i :: 0 <= i < n ==> all[..n][i] == all[i];
      var before := HitsWith(all[..n], k);
      assert forall i :: 0 <= i < |before| ==> before[i] in before;
      assert HitsWith(all, k) == before + if k in all[n] then [n] else [];
    }
  }

  ghost function Having(all: seq<seq<Key>>): Key -> seq<nat> { k => HitsWith(all, k) }

  /** The groups count the occurrences and list the hits; part: the tuples of the next hit that were seen. */
  ghost predicate Grouped(occ: multiset<Key>, having: Key -> seq<nat>, next: nat, part: seq<Key>, groups: map<Key, Bucket>, order: seq<Key>) {
    && Distinct(order) && (forall k :: k in order <==> k in groups)
    && (forall k :: k in groups <==> k in occ || k in part)
    && (forall k :: k in groups ==> Counts(occ, having, next, part, groups[k], k))
  }

  ghost predicate Counts(occ: multiset<Key>, having: Key -> seq<nat>, next: nat, part: seq<Key>, b: Bucket, k: Key) {
    && b.docCount == occ[k] + multiset(part)[k]
    && b.hits == having(k) + if k in part then [next] else []
  }

  /** Only hits before the next one are listed, and none for a tuple that did not occur. */
  ghost predicate Sensible(occ: multiset<Key>, having: Key -> seq<nat>, next: nat) {
    forall k :: (forall i :: i in having(k) ==> i < next) && (k !in occ ==> having(k) == [])
  }

  lemma {:induction false} AlwaysSensible(all: seq<seq<Key>>)
    ensures Sensible(Occurrences(all), Having(all), |all|)
  {
    if all != [] {
      AlwaysSensible(all[..|all| - 1]);
      var having := Having(all[..|all| - 1]);
      forall k
        ensures forall i :: i in HitsWith(all, k) ==> i < |all|
        ensures k !in Occurrences(all) ==> HitsWith(all, k) == []
      {
        assert forall i :: i in having(k) ==> i < |all| - 1;
        assert k in multiset(all[|all| - 1]) <==> k in all[|all| - 1];
      }
    }
  }

  method AddTuple(groups: map<Key, Bucket>, order: seq<Key>, k: Key, hit: nat, ghost occ: multiset<Key>, ghost having: Key -> seq<nat>, ghost part: seq<Key>)
    returns (groups': map<Key, Bucket>, order': seq<Key>)
    requires Sensible(occ, having, hit) && Grouped(occ, having, hit, part, groups, order)
    ensures Grouped(occ, having, hit, part + [k], groups', order')
  {
    groups', order' := groups, order;
    if k !in groups {
      groups' := groups'[k := Bucket(0, [])];
      order' := order' + [k];
    }
    var b := groups'[k];
    b := b.(docCount := b.docCount + 1);
    if |b.hits| == 0 || b.hits[|b.hits| - 1] != hit {
      b := b.(hits := b.hits + [hit]);
    }
    groups' := groups'[k := b];
    NewCount(occ, having, hit, part, groups, k, b);
    forall x | x in groups && x != k ensures Counts(occ, having, hit, part + [k], groups[x], x) {
      assert Counts(occ, having, hit, part, groups[x], x);
    }
  }

  lemma NewCount(occ: multiset<Key>, having: Key -> seq<nat>, hit: nat, part: seq<Key>, groups: map<Key, Bucket>, k: Key, b: Bucket)
    requires Sensible(occ, having, hit) && (k in groups <==> k in occ || k in part)
    requires k in groups ==> Counts(occ, having, hit, part, groups[k], k)
    requires var before := if k in groups then groups[k] else Bucket(0, []);
             && b.docCount == before.docCount + 1
             && b.hits == if before.hits == [] || before.hits[|before.hits| - 1] != hit then before.hits + [hit] else before.hits
    ensures Counts(occ, having, hit, part + [k], b, k)
  {
    var listed := having(k);
    assert forall i :: i in listed ==> i < hit;
    if k in part {
      assert (listed + [hit])[|listed|] == hit;
    } else if listed != [] {
      assert listed[|listed| - 1] in listed;
    }
    assert k in multiset(part) <==> k in part;
  }

  method Group(sources: seq<Source>, hits: seq<Hit>) returns (groups: map<Key, Bucket>, order: seq<Key>)
    requires Shaped(sources, hits)
    ensures GroupedAll(AllTuples(sources, hits), groups, order)
  {
    groups, order := map[], [];
    ghost var before: seq<seq<Key>> := [];
    assert GroupedAll(before, groups, order);
    assert before == AllTuples(sources, hits[..0]);
    hide GroupedAll, Grouped, Occurrences, HitsWith, Counts, Tuples;
    for n := 0 to |hits|
      invariant GroupedAll(before, groups, order) && before == AllTuples(sources, hits[..n])
    {
      MoreTuples(sources, hits, n);
      var parts := HitTuples(sources, hits[n]);
      groups, order := AddHit(groups, order, parts, n, before);
      before := before + [parts];
    }
    assert hits[..|hits|] == hits;
  }

  lemma MoreTuples(sources: seq<Source>, hits: seq<Hit>, n: nat)
    requires Shaped(sources, hits) && n < |hits|
    ensures Shaped(sources, hits[..n]) && Shaped(sources, hits[..n + 1])
    ensures AllTuples(sources, hits[..n + 1]) == AllTuples(sources, hits[..n]) + [Tuples(sources, hits[n], |sources|)]
  {
    assert hits[..n + 1][..n] == hits[..n];
  }

  ghost predicate GroupedAll(all: seq<seq<Key>>, groups: map<Key, Bucket>, order: seq<Key>) {
    Grouped(Occurrences(all), Having(all), |all|, [], groups, order)
  }

  method AddHit(groups: map<Key, Bucket>, order: seq<Key>, parts: seq<Key>, hit: nat, ghost before: seq<seq<Key>>)
    returns (groups': map<Key, Bucket>, order': seq<Key>)
    requires hit == |before| && GroupedAll(before, groups, order)
    ensures GroupedAll(before + [parts], groups', order')
  {
    AlwaysSensible(before);
    groups', order' := AddTuples(groups, order, parts, hit, Occurrences(before), Having(before));
    assert (before + [parts])[..|before|] == before;
    NextHit(before + [parts], groups', order');
  }

  method AddTuples(groups: map<Key, Bucket>, order: seq<Key>, parts: seq<Key>, hit: nat, ghost occ: multiset<Key>, ghost having: Key -> seq<nat>)
    returns (groups': map<Key, Bucket>, order': seq<Key>)
    requires Sensible(occ, having, hit) && Grouped(occ, having, hit, [], groups, order)
    ensures Grouped(occ, having, hit, parts, groups', order')
  {
    groups', order' := groups, order;
    for j := 0 to |parts|
      invariant Grouped(occ, having, hit, parts[..j], groups', order')
    {
      assert parts[..j + 1] == parts[..j] + [parts[j]];
      groups', order' := AddTuple(groups', order', parts[j], hit, occ, having, parts[..j]);
    }
    assert parts[..|parts|] == parts;
  }

  lemma NextHit(all: seq<seq<Key>>, groups: map<Key, Bucket>, order: seq<Key>)
    requires all != []
    requires var before := all[..|all| - 1];
             Grouped(Occurrences(before), Having(before), |all| - 1, all[|all| - 1], groups, order)
    ensures Grouped(Occurrences(all), Having(all), |all|, [], groups, order)
  {
    var before, part := all[..|all| - 1], all[|all| - 1];
    var occ, having := Occurrences(before), Having(before);
    var occ', having' := Occurrences(all), Having(all);
    forall k ensures (k in multiset(part) <==> k in part) && having'(k) == having(k) + if k in part then [|all| - 1] else [] {
    }
    assert occ' == occ + multiset(part);
    NextGroups(occ, having, occ', having', |all| - 1, part, groups, order);
  }

  lemma NextGroups(occ: multiset<Key>, having: Key -> seq<nat>, occ': multiset<Key>, having': Key -> seq<nat>, hit: nat, part: seq<Key>,
                   groups: map<Key, Bucket>, order: seq<Key>)
    requires Grouped(occ, having, hit, part, groups, order) && occ' == occ + multiset(part)
    requires forall k :: (k in multiset(part) <==> k in part) && having'(k) == having(k) + if k in part then [hit] else []
    ensures Grouped(occ', having', hit + 1, [], groups, order)
  {
    forall k | k in groups ensures Counts(occ', having', hit + 1, [], groups[k], k) {
      assert Counts(occ, having, hit, part, groups[k], k);
    }
  }
}

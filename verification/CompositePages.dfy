/**
 * The pages of a composite aggregation, internal/engine/aggs_composite.go: what one request returns
 * and what a client gets that asks for the next page with the `after_key` of the last one.
 */
module CompositePages {
  import opened Composite
  import opened CompositeOrder
  import opened Options

  // ---------------------------------------------------------------- one request

  /** The tuples of the hits, once each and in order. */
  ghost predicate Sorted(sources: seq<Source>, hits: seq<Hit>, sorted: seq<Key>)
    requires Shaped(sources, hits)
  {
    Ascending(sources, sorted) && forall k :: k in sorted <==> k in Occurrences(AllTuples(sources, hits))
  }

  predicate After(sources: seq<Source>, after: Option<Key>, k: Key) {
    after.Some? ==> Less(sources, after.value, k)
  }

  function Beyond(sources: seq<Source>, sorted: seq<Key>, after: Option<Key>): (out: seq<Key>)
    ensures |out| <= |sorted|
  {
    if sorted == [] then []
    else
      var k := sorted[|sorted| - 1];
      Beyond(sources, sorted[..|sorted| - 1], after) + if After(sources, after, k) then [k] else []
  }

  function Limited(keys: seq<Key>, size: nat): seq<Key> {
    if size > 0 && |keys| > size then keys[..size] else keys
  }

  /** The keys of a page: the first `size` after the given one. */
  function Page(sources: seq<Source>, sorted: seq<Key>, after: Option<Key>, size: nat): seq<Key> {
    Limited(Beyond(sources, sorted, after), size)
  }

  /** The bucket counts the occurrences of its key and lists the hits that have it. */
  ghost predicate Exact(sources: seq<Source>, hits: seq<Hit>, k: Key, b: Bucket)
    requires Shaped(sources, hits)
  {
    && b.docCount == Occurrences(AllTuples(sources, hits))[k]
    && b.hits == HitsWith(AllTuples(sources, hits), k)
  }

  /** The key comes after the given one, if there is one. */
  ghost predicate Follows(sources: seq<Source>, after: Option<Key>, k: Key) {
    after.Some? ==> KeyBefore(sources, after.value, k)
  }

  /**
   * What a page is: tuples of the hits after the given one, in order and at most `size` of them; and
   * a tuple that is missing comes after all of a full page.
   */
  ghost predicate PageExact(sources: seq<Source>, hits: seq<Hit>, after: Option<Key>, size: nat, keys: seq<Key>)
    requires Shaped(sources, hits)
  {
    && (forall i, j :: 0 <= i < j < |keys| ==> KeyBefore(sources, keys[i], keys[j]))
    && (forall k :: k in keys ==> k in Occurrences(AllTuples(sources, hits)) && Follows(sources, after, k))
    && (size > 0 ==> |keys| <= size)
    && forall k :: k in Occurrences(AllTuples(sources, hits)) && Follows(sources, after, k) && k !in keys ==>
         size > 0 && |keys| == size && forall q :: q in keys ==> KeyBefore(sources, q, k)
  }

  method CollectComposite(sources: seq<Source>, hits: seq<Hit>, after: Option<Key>, size: nat) returns (keys: seq<Key>, buckets: seq<Bucket>)
    requires Shaped(sources, hits) && (after.Some? ==> |after.value| == |sources|)
    ensures exists sorted :: Sorted(sources, hits, sorted)
    ensures forall sorted :: Sorted(sources, hits, sorted) ==> keys == Page(sources, sorted, after, size)
    ensures PageExact(sources, hits, after, size, keys)
    ensures |buckets| == |keys| && forall i :: 0 <= i < |keys| ==> Exact(sources, hits, keys[i], buckets[i])
  {
    var groups, order := Group(sources, hits);
    GroupsSort(sources, hits, groups, order);
    GroupsExact(sources, hits, groups, order);
    ghost var sorted := Sort(sources, order);
    OneOrder(sources, hits, sorted);
    PageIsExact(sources, hits, sorted, after, size);
    keys := PageKeys(sources, Sort(sources, order), after, size);
    buckets := BucketsOf(sources, hits, keys, groups);
  }

  lemma PageIsExact(sources: seq<Source>, hits: seq<Hit>, sorted: seq<Key>, after: Option<Key>, size: nat)
    requires Shaped(sources, hits) && (after.Some? ==> |after.value| == |sources|) && Sorted(sources, hits, sorted)
    ensures PageExact(sources, hits, after, size, Page(sources, sorted, after, size))
  {
    hide KeyBefore, Less, Beyond, Limited, After, Follows, Ascending, Occurrences;
    var rest, keys := Beyond(sources, sorted, after), Page(sources, sorted, after, size);
    assert Ascending(sources, sorted) && Wide(sources, sorted) by {
      OccurrencesWide(sources, hits);
    }
    BeyondExact(sources, sorted, after);
    LimitedExact(sources, rest, size);
    hide Page;
    forall k | k in sorted ensures After(sources, after, k) <==> Follows(sources, after, k) {
      AfterFollows(sources, after, k);
    }
    forall i, j | 0 <= i < j < |keys| ensures KeyBefore(sources, keys[i], keys[j]) {
      assert keys[i] in keys && keys[j] in keys;
      LessExactly(sources, keys[i], keys[j]);
    }
    forall k | k in sorted && k !in keys && After(sources, after, k)
      ensures size > 0 && |keys| == size && forall q :: q in keys ==> KeyBefore(sources, q, k)
    {
      forall q | q in keys ensures KeyBefore(sources, q, k) {
        LessExactly(sources, q, k);
      }
    }
  }

  lemma LessExactly(sources: seq<Source>, a: Key, b: Key)
    requires |a| == |b| == |sources|
    ensures Less(sources, a, b) <==> KeyBefore(sources, a, b)
  {
    KeyExactly(sources, a, b);
  }

  lemma AfterFollows(sources: seq<Source>, after: Option<Key>, k: Key)
    requires |k| == |sources| && (after.Some? ==> |after.value| == |sources|)
    ensures After(sources, after, k) <==> Follows(sources, after, k)
  {
    if after.Some? {
      LessExactly(sources, after.value, k);
    }
  }

  lemma LimitedExact(sources: seq<Source>, rest: seq<Key>, size: nat)
    requires Ascending(sources, rest)
    ensures var keys := Limited(rest, size);
            && (forall i, j :: 0 <= i < j < |keys| ==> Less(sources, keys[i], keys[j]))
            && (forall k :: k in keys ==> k in rest) && (size > 0 ==> |keys| <= size)
            && forall k :: k in rest && k !in keys ==> size > 0 && |keys| == size && forall q :: q in keys ==> Less(sources, q, k)
  {
    var keys := Limited(rest, size);
    forall k | k in rest && k !in keys
      ensures size > 0 && |keys| == size && forall q :: q in keys ==> Less(sources, q, k)
    {
      var j :| 0 <= j < |rest| && rest[j] == k;
      forall q | q in keys ensures Less(sources, q, k) {
        var i :| 0 <= i < |keys| && keys[i] == q;
        assert rest[i] == q && Before(sources)(rest[i], rest[j]);
      }
    }
    forall i, j | 0 <= i < j < |keys| ensures Less(sources, keys[i], keys[j]) {
      assert Before(sources)(rest[i], rest[j]);
    }
  }

  /** What is after the given key, in the same order. */
  lemma {:induction false} BeyondExact(sources: seq<Source>, sorted: seq<Key>, after: Option<Key>)
    requires Ascending(sources, sorted)
    ensures Ascending(sources, Beyond(sources, sorted, after))
    ensures forall k :: k in Beyond(sources, sorted, after) <==> k in sorted && After(sources, after, k)
  {
    if sorted != [] {
      var n := |sorted| - 1;
      BeyondExact(sources, sorted[..n], after);
      assert sorted == sorted[..n] + [sorted[n]];
      var rest := Beyond(sources, sorted[..n], after);
      forall i | 0 <= i < |rest| ensures Less(sources, rest[i], sorted[n]) {
        assert rest[i] in sorted[..n];
      }
    }
  }

  lemma GroupsExact(sources: seq<Source>, hits: seq<Hit>, groups: map<Key, Bucket>, order: seq<Key>)
    requires Shaped(sources, hits) && GroupedAll(AllTuples(sources, hits), groups, order)
    ensures forall k :: k in groups ==> Exact(sources, hits, k, groups[k])
  {
    var all := AllTuples(sources, hits);
    forall k | k in groups ensures Exact(sources, hits, k, groups[k]) {
      assert Counts(Occurrences(all), Having(all), |all|, [], groups[k], k);
    }
  }

  method BucketsOf(ghost sources: seq<Source>, ghost hits: seq<Hit>, keys: seq<Key>, groups: map<Key, Bucket>) returns (buckets: seq<Bucket>)
    requires Shaped(sources, hits) && (forall k :: k in keys ==> k in groups)
    requires forall k :: k in groups ==> Exact(sources, hits, k, groups[k])
    ensures |buckets| == |keys| && forall i :: 0 <= i < |keys| ==> Exact(sources, hits, keys[i], buckets[i])
  {
    buckets := [];
    for i := 0 to |keys|
      invariant |buckets| == i
      invariant forall j :: 0 <= j < i ==> keys[j] in groups && buckets[j] == groups[keys[j]]
    {
      buckets := buckets + [groups[keys[i]]];
    }
  }

  method PageKeys(sources: seq<Source>, sorted: seq<Key>, after: Option<Key>, size: nat) returns (keys: seq<Key>)
    requires Wide(sources, sorted) && (after.Some? ==> |after.value| == |sources|)
    ensures keys == Page(sources, sorted, after, size)
    ensures forall k :: k in keys ==> k in sorted
  {
    keys := sorted;
    if after.Some? {
      keys := KeysAfter(sources, sorted, after.value);
    } else {
      NothingCutOff(sources, sorted);
    }
    BeyondIn(sources, sorted, after);
    if size > 0 && |keys| > size {
      keys := keys[..size];
    }
  }

  method KeysAfter(sources: seq<Source>, combos: seq<Key>, after: Key) returns (filtered: seq<Key>)
    requires Wide(sources, combos) && |after| == |sources|
    ensures filtered == Beyond(sources, combos, Some(after))
  {
    filtered := [];
    for i := 0 to |combos|
      invariant filtered == Beyond(sources, combos[..i], Some(after))
    {
      assert combos[..i + 1][..i] == combos[..i];
      CompareFlips(sources, combos[i], after);
      if Compare(sources, combos[i], after) > 0 {
        filtered := filtered + [combos[i]];
      }
    }
    assert combos[..|combos|] == combos;
  }

  lemma {:induction false} NothingCutOff(sources: seq<Source>, sorted: seq<Key>)
    ensures Beyond(sources, sorted, None) == sorted
  {
    if sorted != [] {
      NothingCutOff(sources, sorted[..|sorted| - 1]);
      assert sorted == sorted[..|sorted| - 1] + [sorted[|sorted| - 1]];
    }
  }

  lemma {:induction false} BeyondIn(sources: seq<Source>, sorted: seq<Key>, after: Option<Key>)
    ensures forall k :: k in Beyond(sources, sorted, after) ==> k in sorted
  {
    if sorted != [] {
      BeyondIn(sources, sorted[..|sorted| - 1], after);
    }
  }

  lemma {:induction false} OccurrencesWide(sources: seq<Source>, hits: seq<Hit>)
    requires Shaped(sources, hits)
    ensures forall k :: k in Occurrences(AllTuples(sources, hits)) ==> |k| == |sources|
  {
    if hits != [] {
      var n := |hits| - 1;
      OccurrencesWide(sources, hits[..n]);
      var all := AllTuples(sources, hits);
      assert all[..n] == AllTuples(sources, hits[..n]);
      forall k | k in multiset(all[n]) ensures |k| == |sources| {
        TuplesExact(sources, hits[n], |sources|, k);
      }
    }
  }

  lemma GroupsSort(sources: seq<Source>, hits: seq<Hit>, groups: map<Key, Bucket>, order: seq<Key>)
    requires Shaped(sources, hits) && GroupedAll(AllTuples(sources, hits), groups, order)
    ensures Sorted(sources, hits, Sort(sources, order)) && Wide(sources, Sort(sources, order))
    ensures forall k :: k in Sort(sources, order) ==> k in groups
  {
    OccurrencesWide(sources, hits);
    SortKeeps(sources, order);
  }

  lemma OneOrder(sources: seq<Source>, hits: seq<Hit>, sorted: seq<Key>)
    requires Shaped(sources, hits) && Sorted(sources, hits, sorted)
    ensures forall other :: Sorted(sources, hits, other) ==> other == sorted
  {
    OccurrencesWide(sources, hits);
    forall other | Sorted(sources, hits, other) ensures other == sorted {
      AscendingUnique(sources, other, sorted);
    }
  }

  // ---------------------------------------------------------------- page after page

  /** A client asks for pages until one is empty, with `after` set to the last key of the one before. */
  ghost predicate Session(sources: seq<Source>, sorted: seq<Key>, after: Option<Key>, size: nat, pages: seq<seq<Key>>)
    decreases |pages|
  {
    && pages != [] && pages[0] == Page(sources, sorted, after, size)
    && if pages[0] == [] then |pages| == 1
       else Session(sources, sorted, Some(pages[0][|pages[0]| - 1]), size, pages[1..])
  }

  function Concat(pages: seq<seq<Key>>): seq<Key> {
    if pages == [] then [] else pages[0] + Concat(pages[1..])
  }

  lemma Stretch(sorted: seq<Key>, i: nat, j: nat)
    requires i < j <= |sorted|
    ensures sorted[i..] == sorted[i..j] + sorted[j..]
    ensures sorted[i..j] != [] && sorted[i..j][|sorted[i..j]| - 1] == sorted[j - 1]
  {
  }

  /** After one of the keys come exactly the later ones. */
  lemma {:induction false} BeyondKey(sources: seq<Source>, sorted: seq<Key>, i: nat)
    requires Ascending(sources, sorted) && Wide(sources, sorted) && i < |sorted|
    ensures Beyond(sources, sorted, Some(sorted[i])) == sorted[i + 1..]
    decreases |sorted|
  {
    var n := |sorted| - 1;
    if i < n {
      assert sorted[..n][i] == sorted[i];
      BeyondKey(sources, sorted[..n], i);
      SplitLast(sorted, i + 1);
    } else {
      CompareFlips(sources, sorted[i], sorted[i]);
      NoneBeyond(sources, sorted[..n], sorted[n]);
    }
  }

  lemma SplitLast(sorted: seq<Key>, i: nat)
    requires i < |sorted|
    ensures sorted[..|sorted| - 1][i..] + [sorted[|sorted| - 1]] == sorted[i..]
  {
  }

  lemma {:induction false} NoneBeyond(sources: seq<Source>, keys: seq<Key>, k: Key)
    requires forall i :: 0 <= i < |keys| ==> Less(sources, keys[i], k)
    ensures Beyond(sources, keys, Some(k)) == []
  {
    if keys != [] {
      var n := |keys| - 1;
      NoneBeyond(sources, keys[..n], k);
      CompareFlips(sources, keys[n], k);
    }
  }

  /** The page is a stretch of the sorted keys, and its last key leads to the next one. */
  lemma NextPage(sources: seq<Source>, sorted: seq<Key>, after: Option<Key>, i: nat, size: nat) returns (j: nat)
    requires Ascending(sources, sorted) && Wide(sources, sorted) && size > 0
    requires i <= |sorted| && Beyond(sources, sorted, after) == sorted[i..]
    ensures j == (if i + size < |sorted| then i + size else |sorted|) && Page(sources, sorted, after, size) == sorted[i..j]
    ensures i < j ==> Beyond(sources, sorted, Some(sorted[j - 1])) == sorted[j..]
  {
    hide Ascending, Wide, Beyond;
    j := if i + size < |sorted| then i + size else |sorted|;
    if i < j {
      BeyondKey(sources, sorted, j - 1);
    }
  }

  lemma {:induction false} SessionFrom(sources: seq<Source>, sorted: seq<Key>, after: Option<Key>, i: nat, size: nat, pages: seq<seq<Key>>)
    requires Ascending(sources, sorted) && Wide(sources, sorted) && size > 0
    requires i <= |sorted| && Beyond(sources, sorted, after) == sorted[i..]
    requires Session(sources, sorted, after, size, pages)
    ensures Concat(pages) == sorted[i..]
    ensures forall p :: 0 <= p < |pages| - 2 ==> |pages[p]| == size
    decreases |pages|
  {
    var j := NextPage(sources, sorted, after, i, size);
    if pages[0] == [] {
      assert Concat(pages) == [] + Concat(pages[1..]);
    } else {
      Stretch(sorted, i, j);
      SessionFrom(sources, sorted, Some(sorted[j - 1]), j, size, pages[1..]);
      var k := NextPage(sources, sorted, Some(sorted[j - 1]), j, size);
      FullPages(pages, size);
    }
  }

  lemma FullPages(pages: seq<seq<Key>>, size: nat)
    requires pages != [] && forall p :: 0 <= p < |pages[1..]| - 2 ==> |pages[1..][p]| == size
    requires |pages| > 2 ==> |pages[0]| == size
    ensures forall p :: 0 <= p < |pages| - 2 ==> |pages[p]| == size
  {
    forall p | 0 <= p < |pages| - 2 ensures |pages[p]| == size {
      if p > 0 {
        assert pages[p] == pages[1..][p - 1];
      }
    }
  }

  lemma SessionCons(sources: seq<Source>, sorted: seq<Key>, after: Option<Key>, size: nat, page: seq<Key>, rest: seq<seq<Key>>)
    requires page == Page(sources, sorted, after, size) && page != []
    requires Session(sources, sorted, Some(page[|page| - 1]), size, rest)
    ensures Session(sources, sorted, after, size, [page] + rest)
  {
    assert ([page] + rest)[1..] == rest;
  }

  lemma {:induction false} SessionExists(sources: seq<Source>, sorted: seq<Key>, after: Option<Key>, i: nat, size: nat) returns (pages: seq<seq<Key>>)
    requires Ascending(sources, sorted) && Wide(sources, sorted) && size > 0
    requires i <= |sorted| && Beyond(sources, sorted, after) == sorted[i..]
    ensures Session(sources, sorted, after, size, pages)
    decreases |sorted| - i
  {
    var j := NextPage(sources, sorted, after, i, size);
    if i == j {
      pages := [[]];
    } else {
      var rest := SessionExists(sources, sorted, Some(sorted[j - 1]), j, size);
      Stretch(sorted, i, j);
      pages := [sorted[i..j]] + rest;
      SessionCons(sources, sorted, after, size, sorted[i..j], rest);
    }
  }

  /** The pages, one after the other, are all tuples of the hits once and in order; all but the last two are full. */
  lemma PagesComplete(sources: seq<Source>, hits: seq<Hit>, sorted: seq<Key>, size: nat, pages: seq<seq<Key>>)
    requires Shaped(sources, hits) && Sorted(sources, hits, sorted) && size > 0
    requires Session(sources, sorted, None, size, pages)
    ensures Concat(pages) == sorted && forall p :: 0 <= p < |pages| - 2 ==> |pages[p]| == size
  {
    OccurrencesWide(sources, hits);
    NothingCutOff(sources, sorted);
    assert sorted[0..] == sorted;
    SessionFrom(sources, sorted, None, 0, size, pages);
  }

  /** And the client comes to an end. */
  lemma PagesStop(sources: seq<Source>, hits: seq<Hit>, sorted: seq<Key>, size: nat)
    requires Shaped(sources, hits) && Sorted(sources, hits, sorted) && size > 0
    ensures exists pages :: Session(sources, sorted, None, size, pages)
  {
    OccurrencesWide(sources, hits);
    NothingCutOff(sources, sorted);
    assert sorted[0..] == sorted;
    var pages := SessionExists(sources, sorted, None, 0, size);
  }

  // ---------------------------------------------------------------- the after key as JSON

  /** compositeValueKind, with the formats that are not raw as functions. */
  datatype Shape =
    | Plain(number: string -> Option<int>)                             // texts, tiles and raw numbers
    | Address(addressText: string -> string, addressBytes: string -> string)
    | Formatted(format: int -> string, number: string -> Option<int>)  // numbers and dates with a format

  datatype Json = Null | Num(n: int) | Str(s: string)

  /** compositeKeyJSON */
  function KeyJson(shape: Shape, v: Value): Json {
    match v
    case Missing => Null
    case Text(s) => Str(if shape.Address? then shape.addressText(s) else s)
    case Number(n) => if shape.Formatted? then Str(shape.format(n)) else Num(n)
  }

  /** parseCompositeAfter; None is a request error. */
  function ParseAfter(shape: Shape, text: bool, j: Json): Option<Value> {
    if j == Null then Some(Missing)
    else if text then
      if !j.Str? then None
      else Some(Text(if shape.Address? then shape.addressBytes(j.s) else j.s))
    else if j.Num? then Some(Number(j.n))
    else if shape.Address? then None
    else
      match shape.number(j.s)
      case None => None
      case Some(n) => Some(Number(n))
  }

  /** The format reads back what it writes. */
  predicate Faithful(shape: Shape, v: Value) {
    match v
    case Missing => true
    case Text(s) => shape.Address? ==> shape.addressBytes(shape.addressText(s)) == s
    case Number(n) => shape.Formatted? ==> shape.number(shape.format(n)) == Some(n)
  }

  /** Sending an after key back restores the key exactly when the format of the source reads back what it writes. */
  lemma AfterKeyRoundTrip(shape: Shape, text: bool, v: Value)
    requires v.Text? ==> text
    requires v.Number? ==> !text && !shape.Address?
    ensures ParseAfter(shape, text, KeyJson(shape, v)) == Some(v) <==> Faithful(shape, v)
  {
  }
}

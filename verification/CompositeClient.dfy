/**
 * A client of composite aggregations that sends back the `after_key` of a page as it came,
 * internal/engine/aggs_composite.go: the key is written as JSON and read again for the next request.
 */
module CompositeClient {
  import opened CompositeOrder
  import opened Composite
  import opened CompositePages
  import opened Options

  /** The kind of a source: its format, and whether its keys are texts. */
  datatype Kind = Kind(shape: Shape, text: bool)

  function WriteKey(kinds: seq<Kind>, k: Key): (js: seq<Json>)
    requires |k| == |kinds|
    ensures |js| == |k|
  {
    seq(|k|, i requires 0 <= i < |k| => KeyJson(kinds[i].shape, k[i]))
  }

  /** The loop over the sources that reads `after`; None is a request error. */
  function ReadKey(kinds: seq<Kind>, js: seq<Json>): (k: Option<Key>)
    requires |js| == |kinds|
    ensures k.Some? ==> |k.value| == |js| && forall i :: 0 <= i < |js| ==> ParseAfter(kinds[i].shape, kinds[i].text, js[i]) == Some(k.value[i])
    ensures k == None ==> exists i :: 0 <= i < |js| && ParseAfter(kinds[i].shape, kinds[i].text, js[i]) == None
    decreases |js|
  {
    if js == [] then Some([])
    else
      var n := |js| - 1;
      match ReadKey(kinds[..n], js[..n])
      case None => None
      case Some(k) =>
        match ParseAfter(kinds[n].shape, kinds[n].text, js[n])
        case None => None
        case Some(v) => Some(k + [v])
  }

  /** The key that the next request gets for the last key of a page. */
  function SentBack(kinds: seq<Kind>, k: Key): Option<Key>
    requires |k| == |kinds|
  {
    ReadKey(kinds, WriteKey(kinds, k))
  }

  ghost predicate Typed(kinds: seq<Kind>, k: Key) {
    && |k| == |kinds|
    && forall i :: 0 <= i < |k| ==> (k[i].Text? ==> kinds[i].text) && (k[i].Number? ==> !kinds[i].text && !kinds[i].shape.Address?)
  }

  /** A key comes back as it was exactly when the formats of all its values read back what they write. */
  lemma SentBackExactly(kinds: seq<Kind>, k: Key)
    requires Typed(kinds, k)
    ensures SentBack(kinds, k) == Some(k) <==> forall i :: 0 <= i < |k| ==> Faithful(kinds[i].shape, k[i])
  {
    var js := WriteKey(kinds, k);
    forall i | 0 <= i < |k|
      ensures ParseAfter(kinds[i].shape, kinds[i].text, js[i]) == Some(k[i]) <==> Faithful(kinds[i].shape, k[i])
    {
      AfterKeyRoundTrip(kinds[i].shape, kinds[i].text, k[i]);
    }
    if forall i :: 0 <= i < |k| ==> Faithful(kinds[i].shape, k[i]) {
      assert SentBack(kinds, k).Some?;
      assert SentBack(kinds, k).value == k;
    }
  }

  // ---------------------------------------------------------------- page after page

  ghost predicate AllTyped(kinds: seq<Kind>, sorted: seq<Key>) {
    forall i :: 0 <= i < |sorted| ==> Typed(kinds, sorted[i])
  }

  /** Requests until a page is empty; there is no session when a request fails or pages never end. */
  ghost predicate ClientSession(sources: seq<Source>, kinds: seq<Kind>, sorted: seq<Key>, after: Option<Key>, size: nat, pages: seq<seq<Key>>)
    requires AllTyped(kinds, sorted)
    decreases |pages|
  {
    && pages != [] && pages[0] == Page(sources, sorted, after, size)
    && if pages[0] == [] then |pages| == 1
       else
         LastTyped(sources, kinds, sorted, after, size);
         assert pages[0][|pages[0]| - 1] in Page(sources, sorted, after, size);
         var next := SentBack(kinds, pages[0][|pages[0]| - 1]);
         next.Some? && ClientSession(sources, kinds, sorted, next, size, pages[1..])
  }

  lemma LastTyped(sources: seq<Source>, kinds: seq<Kind>, sorted: seq<Key>, after: Option<Key>, size: nat)
    requires AllTyped(kinds, sorted)
    ensures forall k :: k in Page(sources, sorted, after, size) ==> Typed(kinds, k)
  {
    BeyondIn(sources, sorted, after);
    forall k | k in Page(sources, sorted, after, size) ensures Typed(kinds, k) {
      assert k in sorted;
      var i :| 0 <= i < |sorted| && sorted[i] == k;
    }
  }

  /**
   * What comes back for a key is read, and is that key or comes after it, but before the next one:
   * the next page continues right behind it.
   */
  ghost predicate Resumes(sources: seq<Source>, kinds: seq<Kind>, sorted: seq<Key>, i: nat)
    requires AllTyped(kinds, sorted) && i < |sorted|
  {
    var next := SentBack(kinds, sorted[i]);
    next.Some? && !Less(sources, next.value, sorted[i]) && (i + 1 < |sorted| ==> Less(sources, next.value, sorted[i + 1]))
  }

  /** All ends of pages resume, from the page that starts at i. */
  ghost predicate EndsResume(sources: seq<Source>, kinds: seq<Kind>, sorted: seq<Key>, i: nat, size: nat)
    requires AllTyped(kinds, sorted) && size > 0
    decreases if i < |sorted| then |sorted| - i else 0
  {
    i >= |sorted| || (Resumes(sources, kinds, sorted, PageEnd(sorted, i, size) - 1) && EndsResume(sources, kinds, sorted, i + size, size))
  }

  function PageEnd(sorted: seq<Key>, i: nat, size: nat): (j: nat)
    requires i < |sorted| && size > 0
    ensures i < j <= |sorted|
  {
    if i + size < |sorted| then i + size else |sorted|
  }

  /** The keys beyond k are those from m on. */
  ghost predicate BeyondFrom(sources: seq<Source>, sorted: seq<Key>, k: Key, m: nat) {
    && m <= |sorted| && (forall i :: 0 <= i < m ==> !Less(sources, k, sorted[i]))
    && (forall i :: m <= i < |sorted| ==> Less(sources, k, sorted[i]))
  }

  /** The keys beyond any key are a tail of the sorted ones. */
  lemma {:induction false} BeyondIsTail(sources: seq<Source>, sorted: seq<Key>, k: Key) returns (m: nat)
    requires Ascending(sources, sorted)
    ensures BeyondFrom(sources, sorted, k, m)
  {
    hide Less;
    m := |sorted|;
    while m > 0 && Less(sources, k, sorted[m - 1])
      invariant m <= |sorted| && forall i :: m <= i < |sorted| ==> Less(sources, k, sorted[i])
    {
      m := m - 1;
    }
    forall i | 0 <= i < m ensures !Less(sources, k, sorted[i]) {
      if Less(sources, k, sorted[i]) && i < m - 1 {
        LessChains(sources, k, sorted[i], sorted[m - 1]);
      }
    }
  }

  lemma {:induction false} TailIsBeyond(sources: seq<Source>, sorted: seq<Key>, k: Key, m: nat)
    requires BeyondFrom(sources, sorted, k, m)
    ensures Beyond(sources, sorted, Some(k)) == sorted[m..]
    decreases |sorted|
  {
    hide Less;
    if sorted != [] {
      var n := |sorted| - 1;
      if m <= n {
        TailIsBeyond(sources, sorted[..n], k, m);
        SplitLast(sorted, m);
      } else {
        TailIsBeyond(sources, sorted[..n], k, n);
      }
    }
  }

  lemma LessChains(sources: seq<Source>, a: Key, b: Key, c: Key)
    requires Less(sources, a, b) && Less(sources, b, c)
    ensures Less(sources, a, c)
  {
    CompareChains(sources, a, b, c);
  }

  /** The next page starts right behind the key exactly when it resumes. */
  lemma {:induction false} ResumesExactly(sources: seq<Source>, kinds: seq<Kind>, sorted: seq<Key>, i: nat)
    requires Ascending(sources, sorted) && Wide(sources, sorted) && AllTyped(kinds, sorted) && i < |sorted|
    requires SentBack(kinds, sorted[i]).Some?
    ensures Resumes(sources, kinds, sorted, i) <==> Beyond(sources, sorted, SentBack(kinds, sorted[i])) == sorted[i + 1..]
  {
    hide SentBack, Beyond;
    assert |sorted[i]| == |sources| == |kinds|;
    SentBackWide(kinds, sorted[i]);
    var k := SentBack(kinds, sorted[i]).value;
    var m := BeyondIsTail(sources, sorted, k);
    TailIsBeyond(sources, sorted, k, m);
    CompareFlips(sources, k, sorted[i]);
    TailsDiffer(sources, sorted, m, i + 1);
    if Resumes(sources, kinds, sorted, i) {
      assert m <= i + 1;
      NotBefore(sources, k, sorted[i]);
    }
  }

  lemma SentBackWide(kinds: seq<Kind>, k: Key)
    requires |k| == |kinds|
    ensures SentBack(kinds, k).Some? ==> |SentBack(kinds, k).value| == |kinds|
  {
  }

  lemma NotBefore(sources: seq<Source>, a: Key, b: Key)
    requires |a| == |sources| && |b| == |sources|
    ensures Less(sources, a, b) ==> !Less(sources, b, a)
  {
    CompareFlips(sources, a, b);
  }

  lemma TailsDiffer(sources: seq<Source>, sorted: seq<Key>, m: nat, n: nat)
    requires m <= |sorted| && n <= |sorted|
    ensures sorted[m..] == sorted[n..] <==> m == n
  {
    assert |sorted[m..]| == |sorted| - m && |sorted[n..]| == |sorted| - n;
  }

  /** The pages of a client are the rest of the tuples in order exactly when the end of every page resumes. */
  lemma {:induction false} ClientFrom(sources: seq<Source>, kinds: seq<Kind>, sorted: seq<Key>, after: Option<Key>, i: nat, size: nat, pages: seq<seq<Key>>)
    requires Ascending(sources, sorted) && Wide(sources, sorted) && AllTyped(kinds, sorted) && size > 0
    requires i <= |sorted| && Beyond(sources, sorted, after) == sorted[i..]
    requires ClientSession(sources, kinds, sorted, after, size, pages)
    ensures Concat(pages) == sorted[i..] <==> EndsResume(sources, kinds, sorted, i, size)
    decreases |pages|
  {
    hide Ascending, Wide, SentBack, Resumes, AllTyped, EndsResume, Beyond, ClientSession, Concat, Typed, PageEnd;
    var j := SessionStep(sources, kinds, sorted, after, i, size, pages);
    if i == |sorted| {
      NoEnds(sources, kinds, sorted, i, size);
    } else {
      EndsStep(sources, kinds, sorted, i, size);
      FirstPage(pages, sorted, i, j);
      ResumesExactly(sources, kinds, sorted, j - 1);
      SentBackWide(kinds, sorted[j - 1]);
      if Resumes(sources, kinds, sorted, j - 1) {
        ClientFrom(sources, kinds, sorted, SentBack(kinds, sorted[j - 1]), j, size, pages[1..]);
      } else {
        WrongStart(sources, kinds, sorted, SentBack(kinds, sorted[j - 1]), j, size, pages[1..]);
      }
    }
  }

  /** The first page of a session, and what follows it. */
  lemma {:induction false} SessionStep(sources: seq<Source>, kinds: seq<Kind>, sorted: seq<Key>, after: Option<Key>, i: nat, size: nat, pages: seq<seq<Key>>)
    returns (j: nat)
    requires Ascending(sources, sorted) && Wide(sources, sorted) && AllTyped(kinds, sorted) && size > 0
    requires i <= |sorted| && Beyond(sources, sorted, after) == sorted[i..]
    requires ClientSession(sources, kinds, sorted, after, size, pages)
    ensures i == |sorted| ==> Concat(pages) == sorted[i..]
    ensures i < |sorted| ==> i < j == PageEnd(sorted, i, size) && pages != [] && pages[0] == sorted[i..j]
    ensures i < |sorted| ==> |sorted[j - 1]| == |kinds| == |sources| && SentBack(kinds, sorted[j - 1]).Some?
    ensures i < |sorted| ==> ClientSession(sources, kinds, sorted, SentBack(kinds, sorted[j - 1]), size, pages[1..])
  {
    hide Ascending, Wide, SentBack, Beyond, AllTyped, Typed;
    j := NextPage(sources, sorted, after, i, size);
    hide Page;
    if i == j {
      assert Concat(pages) == [] + Concat(pages[1..]);
    } else {
      KeyWide(sources, kinds, sorted, j - 1);
      Stretch(sorted, i, j);
    }
  }

  lemma KeyWide(sources: seq<Source>, kinds: seq<Kind>, sorted: seq<Key>, i: nat)
    requires Wide(sources, sorted) && AllTyped(kinds, sorted) && i < |sorted|
    ensures |sorted[i]| == |kinds| == |sources|
  {
  }

  lemma FirstPage(pages: seq<seq<Key>>, sorted: seq<Key>, i: nat, j: nat)
    requires pages != [] && i < j <= |sorted| && pages[0] == sorted[i..j]
    ensures Concat(pages) == sorted[i..] <==> Concat(pages[1..]) == sorted[j..]
  {
    Stretch(sorted, i, j);
    assert Concat(pages) == sorted[i..j] + Concat(pages[1..]);
    assert Concat(pages)[j - i..] == Concat(pages[1..]) && sorted[i..][j - i..] == sorted[j..];
  }

  lemma {:induction false} EndsStep(sources: seq<Source>, kinds: seq<Kind>, sorted: seq<Key>, i: nat, size: nat)
    requires AllTyped(kinds, sorted) && size > 0 && i < |sorted|
    ensures var j := PageEnd(sorted, i, size);
            EndsResume(sources, kinds, sorted, i, size) <==> Resumes(sources, kinds, sorted, j - 1) && EndsResume(sources, kinds, sorted, j, size)
  {
    hide Resumes;
  }

  lemma {:induction false} NoEnds(sources: seq<Source>, kinds: seq<Kind>, sorted: seq<Key>, i: nat, size: nat)
    requires AllTyped(kinds, sorted) && size > 0 && i >= |sorted|
    ensures EndsResume(sources, kinds, sorted, i, size)
  {
  }

  /** Pages that do not start at j do not add up to the keys from j on. */
  lemma {:induction false} WrongStart(sources: seq<Source>, kinds: seq<Kind>, sorted: seq<Key>, after: Option<Key>, j: nat, size: nat, pages: seq<seq<Key>>)
    requires Ascending(sources, sorted) && Wide(sources, sorted) && AllTyped(kinds, sorted) && size > 0 && j <= |sorted|
    requires after.Some? && |after.value| == |sources| && Beyond(sources, sorted, after) != sorted[j..]
    requires ClientSession(sources, kinds, sorted, after, size, pages)
    ensures Concat(pages) != sorted[j..]
  {
    hide SentBack, Beyond;
    var m := BeyondIsTail(sources, sorted, after.value);
    TailIsBeyond(sources, sorted, after.value, m);
    var e := NextPage(sources, sorted, after, m, size);
    assert m != j;
    if m == e {
      assert Concat(pages) == [] + Concat(pages[1..]) && pages[1..] == [];
      TailsDiffer(sources, sorted, |sorted|, j);
    } else {
      assert Concat(pages) == sorted[m..e] + Concat(pages[1..]);
      assert Concat(pages)[0] == sorted[m];
      if j < |sorted| {
        DifferentKeys(sources, sorted, m, j);
        assert sorted[j..][0] == sorted[j];
      }
    }
  }

  lemma DifferentKeys(sources: seq<Source>, sorted: seq<Key>, m: nat, j: nat)
    requires Ascending(sources, sorted) && Wide(sources, sorted) && m < |sorted| && j < |sorted| && m != j
    ensures sorted[m] != sorted[j]
  {
    CompareFlips(sources, sorted[m], sorted[m]);
    assert if m < j then Less(sources, sorted[m], sorted[j]) else Less(sources, sorted[j], sorted[m]);
  }

  /**
   * A client that sends back the after keys it gets has received every tuple once and in order at the
   * end of its session exactly when the end of every page resumes.
   */
  lemma {:induction false} ClientPagesExact(sources: seq<Source>, kinds: seq<Kind>, hits: seq<Hit>, sorted: seq<Key>, size: nat, pages: seq<seq<Key>>)
    requires Shaped(sources, hits) && Sorted(sources, hits, sorted) && AllTyped(kinds, sorted) && size > 0
    requires ClientSession(sources, kinds, sorted, None, size, pages)
    ensures Concat(pages) == sorted <==> EndsResume(sources, kinds, sorted, 0, size)
  {
    OccurrencesWide(sources, hits);
    NothingCutOff(sources, sorted);
    assert sorted[0..] == sorted;
    ClientFrom(sources, kinds, sorted, None, 0, size, pages);
  }

  lemma {:induction false} ClientExists(sources: seq<Source>, kinds: seq<Kind>, sorted: seq<Key>, after: Option<Key>, i: nat, size: nat)
    returns (pages: seq<seq<Key>>)
    requires Ascending(sources, sorted) && Wide(sources, sorted) && AllTyped(kinds, sorted) && size > 0
    requires i <= |sorted| && Beyond(sources, sorted, after) == sorted[i..] && EndsResume(sources, kinds, sorted, i, size)
    ensures ClientSession(sources, kinds, sorted, after, size, pages)
    decreases |sorted| - i
  {
    hide Beyond, Ascending, Wide, SentBack;
    var j := NextPage(sources, sorted, after, i, size);
    if i == j {
      pages := [[]];
    } else {
      ResumesExactly(sources, kinds, sorted, j - 1);
      EndsStep(sources, kinds, sorted, i, size);
      var rest := ClientExists(sources, kinds, sorted, SentBack(kinds, sorted[j - 1]), j, size);
      Stretch(sorted, i, j);
      pages := [sorted[i..j]] + rest;
      assert pages[1..] == rest;
    }
  }

  /** When the end of every page resumes, the session of the client comes to an end. */
  lemma {:induction false} ClientStops(sources: seq<Source>, kinds: seq<Kind>, hits: seq<Hit>, sorted: seq<Key>, size: nat)
    requires Shaped(sources, hits) && Sorted(sources, hits, sorted) && AllTyped(kinds, sorted) && size > 0
    requires EndsResume(sources, kinds, sorted, 0, size)
    ensures exists pages :: ClientSession(sources, kinds, sorted, None, size, pages)
  {
    OccurrencesWide(sources, hits);
    NothingCutOff(sources, sorted);
    assert sorted[0..] == sorted;
    var pages := ClientExists(sources, kinds, sorted, None, 0, size);
  }

  ghost predicate AllFaithful(kinds: seq<Kind>, sorted: seq<Key>)
    requires AllTyped(kinds, sorted)
  {
    forall i, j :: 0 <= i < |sorted| && 0 <= j < |sorted[i]| ==> Faithful(kinds[j].shape, sorted[i][j])
  }

  /** Formats that read back the values of all tuples make every page end resume, whatever the page size. */
  lemma {:induction false} FaithfulResumes(sources: seq<Source>, kinds: seq<Kind>, sorted: seq<Key>, i: nat, size: nat)
    requires Ascending(sources, sorted) && Wide(sources, sorted) && AllTyped(kinds, sorted) && size > 0 && AllFaithful(kinds, sorted)
    ensures EndsResume(sources, kinds, sorted, i, size)
    decreases if i < |sorted| then |sorted| - i else 0
  {
    hide AllFaithful, Ascending, Wide, EndsResume, Resumes;
    if i < |sorted| {
      EndsStep(sources, kinds, sorted, i, size);
      FaithfulResumes(sources, kinds, sorted, PageEnd(sorted, i, size), size);
      FaithfulResume(sources, kinds, sorted, PageEnd(sorted, i, size) - 1);
    } else {
      NoEnds(sources, kinds, sorted, i, size);
    }
  }

  lemma {:induction false} FaithfulResume(sources: seq<Source>, kinds: seq<Kind>, sorted: seq<Key>, i: nat)
    requires Ascending(sources, sorted) && Wide(sources, sorted) && AllTyped(kinds, sorted) && AllFaithful(kinds, sorted) && i < |sorted|
    ensures Resumes(sources, kinds, sorted, i)
  {
    hide SentBack, Faithful;
    SentBackExactly(kinds, sorted[i]);
    CompareFlips(sources, sorted[i], sorted[i]);
  }

  // ---------------------------------------------------------------- what goes wrong

  /** With pages of one key, a key that comes back as an earlier one is answered with itself, without end. */
  lemma {:induction false} NeverEnds(sources: seq<Source>, kinds: seq<Kind>, sorted: seq<Key>, i: nat, pages: seq<seq<Key>>)
    requires AllTyped(kinds, sorted) && i < |sorted| && SentBack(kinds, sorted[i]).Some?
    requires Beyond(sources, sorted, SentBack(kinds, sorted[i])) == sorted[i..]
    ensures !ClientSession(sources, kinds, sorted, SentBack(kinds, sorted[i]), 1, pages)
    decreases |pages|
  {
    hide SentBack, Beyond;
    if pages != [] {
      assert Page(sources, sorted, SentBack(kinds, sorted[i]), 1) == [sorted[i]];
      NeverEnds(sources, kinds, sorted, i, pages[1..]);
    }
  }

  const DAY := 86_400_000

  /**
   * A date format that writes the day and nothing smaller, such as yyyy-MM-dd: write gives the text of
   * a day, counted from the epoch, and read the day of a text.
   */
  function DayKind(write: int -> string, read: string -> Option<int>): Kind {
    Kind(Formatted(n => write(n / DAY), s => StartOf(read(s))), false)
  }

  function StartOf(day: Option<int>): Option<int> {
    match day
    case None => None
    case Some(d) => Some(d * DAY)
  }

  lemma DaySentBack(write: int -> string, read: string -> Option<int>, kinds: seq<Kind>, n: int, k: Key)
    requires read(write(n / DAY)) == Some(n / DAY) && kinds == [DayKind(write, read)] && k == [Number(n)]
    ensures Typed(kinds, k) && SentBack(kinds, k) == Some([Number(n / DAY * DAY)])
  {
    var js := WriteKey(kinds, k);
    assert js == [Str(write(n / DAY))];
    assert ReadKey(kinds[..0], js[..0]) == Some([]);
    assert ParseAfter(kinds[0].shape, false, js[0]) == Some(Number(n / DAY * DAY));
    assert SentBack(kinds, k).Some?;
    assert SentBack(kinds, k).value == [Number(n / DAY * DAY)];
  }

  lemma EarlierBeyond(sources: seq<Source>, sorted: seq<Key>, n: int, earlier: int)
    requires sources == [Source(false, Default, false)] && sorted == [[Number(n)]] && earlier < n
    ensures Beyond(sources, sorted, Some([Number(earlier)])) == sorted == Beyond(sources, sorted, None)
  {
    var k, zero: Key := sorted[0], [Number(earlier)];
    assert CompareAt(sources[0], zero[0], k[0]) == -1;
    assert Compare(sources, zero, k) == -1;
    hide Compare;
    assert sorted[..0] == [];
    assert Beyond(sources, sorted[..0], Some(zero)) == [] == Beyond(sources, sorted[..0], None);
  }

  /** With such a format, the pages of a single date that is not the start of a day never end. */
  lemma {:induction false} DaysNeverEnd(write: int -> string, read: string -> Option<int>, n: int, sources: seq<Source>, kinds: seq<Kind>, sorted: seq<Key>, pages: seq<seq<Key>>)
    requires read(write(n / DAY)) == Some(n / DAY) && n % DAY != 0
    requires sources == [Source(false, Default, false)] && kinds == [DayKind(write, read)] && sorted == [[Number(n)]]
    ensures AllTyped(kinds, sorted) && !ClientSession(sources, kinds, sorted, None, 1, pages)
  {
    var k: Key := [Number(n)];
    DaySentBack(write, read, kinds, n, k);
    EarlierBeyond(sources, sorted, n, n / DAY * DAY);
    assert sorted[0] == k && sorted[0..] == sorted;
    hide SentBack, Beyond, Typed;
    if pages != [] {
      NeverEnds(sources, kinds, sorted, 0, pages[1..]);
    }
  }
}

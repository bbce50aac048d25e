/**
 * The order of composite buckets, the comparator of collectComposite in
 * internal/engine/aggs_composite.go: keys are compared source by source, each source ascending or
 * descending and with its missing bucket first or last.
 *
 * Numbers stand for the doubles of the source; they are compared and nothing else.
 */
module CompositeOrder {
  import Lists
  import Sorting

  datatype Value = Missing | Number(n: int) | Text(s: string)

  datatype MissingOrder = Default | First | Last

  datatype Source = Source(desc: bool, missingOrder: MissingOrder, missingBucket: bool)

  type Key = seq<Value>

  // ---------------------------------------------------------------- the comparator of the source

  function Sign(a: int, b: int): int { if a < b then -1 else if a > b then 1 else 0 }

  /** strings.Compare */
  function CompareText(a: string, b: string): int {
    if a == "" || b == "" then Sign(|a|, |b|)
    else if a[0] != b[0] then Sign(a[0] as int, b[0] as int)
    else CompareText(a[1..], b[1..])
  }

  /** compareCompositeValue: numbers come before texts. */
  function CompareValue(a: Value, b: Value): int
    requires a != Missing && b != Missing
  {
    match a
    case Text(s) => if b.Text? then CompareText(s, b.s) else 1
    case Number(n) => if b.Number? then Sign(n, b.n) else -1
  }

  predicate MissingFirst(src: Source) {
    match src.missingOrder
    case First => true
    case Last => false
    case Default => !src.desc
  }

  function CompareAt(src: Source, a: Value, b: Value): int {
    if a == Missing && b == Missing then 0
    else if a == Missing then (if MissingFirst(src) then -1 else 1)
    else if b == Missing then (if MissingFirst(src) then 1 else -1)
    else if src.desc then -CompareValue(a, b)
    else CompareValue(a, b)
  }

  function Compare(sources: seq<Source>, a: Key, b: Key): int
    requires |a| == |sources| && |b| == |sources|
  {
    if sources == [] then 0
    else
      var c := CompareAt(sources[0], a[0], b[0]);
      if c != 0 then c else Compare(sources[1..], a[1..], b[1..])
  }

  // ---------------------------------------------------------------- a strict total order

  lemma {:induction false} TextFlips(a: string, b: string)
    ensures CompareText(a, b) == -CompareText(b, a)
    ensures CompareText(a, b) == 0 <==> a == b
  {
    if a != "" && b != "" && a[0] == b[0] {
      TextFlips(a[1..], b[1..]);
      assert a == [a[0]] + a[1..] && b == [b[0]] + b[1..];
    }
  }

  lemma {:induction false} TextChains(a: string, b: string, c: string)
    requires CompareText(a, b) < 0 && CompareText(b, c) < 0
    ensures CompareText(a, c) < 0
  {
    if a != "" && b != "" && c != "" && a[0] == b[0] == c[0] {
      TextChains(a[1..], b[1..], c[1..]);
    }
  }

  lemma AtFlips(src: Source, a: Value, b: Value)
    ensures CompareAt(src, a, b) == -CompareAt(src, b, a)
    ensures CompareAt(src, a, b) == 0 <==> a == b
  {
    if a.Text? && b.Text? {
      TextFlips(a.s, b.s);
    }
  }

  lemma AtChains(src: Source, a: Value, b: Value, c: Value)
    requires CompareAt(src, a, b) < 0 && CompareAt(src, b, c) < 0
    ensures CompareAt(src, a, c) < 0
  {
    if a.Text? && b.Text? && c.Text? {
      TextFlips(a.s, b.s);
      TextFlips(b.s, c.s);
      TextFlips(a.s, c.s);
      if src.desc {
        TextChains(c.s, b.s, a.s);
      } else {
        TextChains(a.s, b.s, c.s);
      }
    }
  }

  /** Antisymmetric, and equal only on equal keys, for any mix of directions and missing orders. */
  lemma {:induction false} CompareFlips(sources: seq<Source>, a: Key, b: Key)
    requires |a| == |sources| && |b| == |sources|
    ensures Compare(sources, a, b) == -Compare(sources, b, a)
    ensures Compare(sources, a, b) == 0 <==> a == b
  {
    if sources != [] {
      AtFlips(sources[0], a[0], b[0]);
      CompareFlips(sources[1..], a[1..], b[1..]);
      assert a == [a[0]] + a[1..] && b == [b[0]] + b[1..];
    }
  }

  lemma {:induction false} CompareChains(sources: seq<Source>, a: Key, b: Key, c: Key)
    requires |a| == |sources| && |b| == |sources| && |c| == |sources|
    requires Compare(sources, a, b) < 0 && Compare(sources, b, c) < 0
    ensures Compare(sources, a, c) < 0
  {
    if sources != [] {
      AtFlips(sources[0], a[0], b[0]);
      AtFlips(sources[0], b[0], c[0]);
      if CompareAt(sources[0], a[0], b[0]) == 0 && CompareAt(sources[0], b[0], c[0]) == 0 {
        CompareChains(sources[1..], a[1..], b[1..], c[1..]);
      } else if CompareAt(sources[0], a[0], b[0]) < 0 && CompareAt(sources[0], b[0], c[0]) < 0 {
        AtChains(sources[0], a[0], b[0], c[0]);
      }
    }
  }

  predicate Less(sources: seq<Source>, a: Key, b: Key) {
    |a| == |sources| && |b| == |sources| && Compare(sources, a, b) < 0
  }

  // ---------------------------------------------------------------- sorted lists of keys

  predicate Wide(sources: seq<Source>, keys: seq<Key>) { forall k :: k in keys ==> |k| == |sources| }

  function Before(sources: seq<Source>): (Key, Key) -> bool { (a, b) => Less(sources, a, b) }

  ghost predicate Ascending(sources: seq<Source>, keys: seq<Key>) { Sorting.Ascending(Before(sources), keys) }

  function Sort(sources: seq<Source>, keys: seq<Key>): seq<Key> { Sorting.Sort(Before(sources), keys) }

  lemma OrderIsTotal(sources: seq<Source>, keys: seq<Key>)
    requires Wide(sources, keys)
    ensures Sorting.Total(Before(sources), keys)
  {
    var less := Before(sources);
    forall a, b | a in keys && b in keys
      ensures less(a, b) || a == b || less(b, a)
      ensures !(less(a, b) && less(b, a))
    {
      CompareFlips(sources, a, b);
    }
    forall a, b, c | a in keys && b in keys && c in keys && less(a, b) && less(b, c) ensures less(a, c) {
      CompareChains(sources, a, b, c);
    }
  }

  lemma SortKeeps(sources: seq<Source>, keys: seq<Key>)
    requires Wide(sources, keys) && Lists.Distinct(keys)
    ensures Ascending(sources, Sort(sources, keys)) && Wide(sources, Sort(sources, keys))
    ensures forall x :: x in Sort(sources, keys) <==> x in keys
  {
    OrderIsTotal(sources, keys);
    Sorting.SortAscends(Before(sources), keys);
    Sorting.SortMembers(Before(sources), keys);
  }

  /** Ascending lists of the same keys are the same list. */
  lemma AscendingUnique(sources: seq<Source>, a: seq<Key>, b: seq<Key>)
    requires Wide(sources, a) && Ascending(sources, a) && Ascending(sources, b) && forall k :: k in a <==> k in b
    ensures a == b
  {
    OrderIsTotal(sources, a);
    Sorting.AscendingUnique(Before(sources), a, b);
  }

  // ---------------------------------------------------------------- what the order is

  /** At i, where the texts first differ, a ends or has the smaller character. */
  predicate SmallerAt(a: string, b: string, i: nat) {
    i <= |a| && i < |b| && a[..i] == b[..i] && (i == |a| || a[i] < b[i])
  }

  /** The lexicographic order of texts. */
  ghost predicate TextBefore(a: string, b: string) {
    exists i: nat :: SmallerAt(a, b, i)
  }

  lemma {:induction false} TextExactly(a: string, b: string)
    ensures CompareText(a, b) < 0 <==> TextBefore(a, b)
  {
    if a == "" || b == "" {
      assert b != "" ==> SmallerAt(a, b, 0);
    } else if a[0] != b[0] {
      assert a[0] < b[0] ==> SmallerAt(a, b, 0);
      OtherwiseAtOnce(a, b);
    } else {
      TextExactly(a[1..], b[1..]);
      TextTail(a, b);
    }
  }

  lemma SameHead<T>(a: seq<T>, b: seq<T>, i: nat)
    requires 0 < i <= |a| && i <= |b| && a[..i] == b[..i]
    ensures a[0] == b[0]
  {
    assert a[..i][0] == a[0] && b[..i][0] == b[0];
  }

  lemma OtherwiseAtOnce(a: string, b: string)
    requires a != "" && b != "" && a[0] != b[0]
    ensures TextBefore(a, b) ==> a[0] < b[0]
  {
    if i: nat :| SmallerAt(a, b, i) {
      if i > 0 {
        SameHead(a, b, i);
      }
    }
  }

  lemma TextTail(a: string, b: string)
    requires a != "" && b != "" && a[0] == b[0]
    ensures TextBefore(a, b) <==> TextBefore(a[1..], b[1..])
  {
    if i: nat :| SmallerAt(a, b, i) {
      assert i > 0;
      assert a[1..][..i - 1] == a[..i][1..] && b[1..][..i - 1] == b[..i][1..];
      assert SmallerAt(a[1..], b[1..], i - 1);
    }
    if i: nat :| SmallerAt(a[1..], b[1..], i) {
      assert a[..i + 1] == [a[0]] + a[1..][..i] && b[..i + 1] == [b[0]] + b[1..][..i];
      assert SmallerAt(a, b, i + 1);
    }
  }

  /** Numbers by size, then texts. */
  ghost predicate Smaller(a: Value, b: Value) {
    || (a.Number? && b.Number? && a.n < b.n)
    || (a.Number? && b.Text?)
    || (a.Text? && b.Text? && TextBefore(a.s, b.s))
  }

  /**
   * In one source: present values by size in its direction; a missing one before them when it comes
   * first, or by default when ascending, and after them when it comes last, or by default when descending.
   */
  ghost predicate Comes(src: Source, a: Value, b: Value) {
    || (a.Missing? && !b.Missing? && (src.missingOrder.First? || (src.missingOrder.Default? && !src.desc)))
    || (!a.Missing? && b.Missing? && (src.missingOrder.Last? || (src.missingOrder.Default? && src.desc)))
    || (!a.Missing? && !b.Missing? && if src.desc then Smaller(b, a) else Smaller(a, b))
  }

  lemma ComesExactly(src: Source, a: Value, b: Value)
    ensures CompareAt(src, a, b) < 0 <==> Comes(src, a, b)
  {
    if a.Text? && b.Text? {
      TextFlips(a.s, b.s);
      TextExactly(a.s, b.s);
      TextExactly(b.s, a.s);
    }
  }

  ghost predicate ComesAt(sources: seq<Source>, a: Key, b: Key, i: nat) {
    i < |sources| == |a| == |b| && a[..i] == b[..i] && Comes(sources[i], a[i], b[i])
  }

  /** The first source in which the keys differ decides. */
  ghost predicate KeyBefore(sources: seq<Source>, a: Key, b: Key) {
    exists i: nat :: ComesAt(sources, a, b, i)
  }

  lemma {:induction false} KeyExactly(sources: seq<Source>, a: Key, b: Key)
    requires |a| == |sources| && |b| == |sources|
    ensures Compare(sources, a, b) < 0 <==> KeyBefore(sources, a, b)
  {
    if sources != [] {
      ComesExactly(sources[0], a[0], b[0]);
      ComesExactly(sources[0], b[0], a[0]);
      AtFlips(sources[0], a[0], b[0]);
      hide Comes;
      if a[0] != b[0] {
        KeyHead(sources, a, b);
      } else {
        KeyExactly(sources[1..], a[1..], b[1..]);
        KeyTail(sources, a, b);
      }
    }
  }

  lemma KeyHead(sources: seq<Source>, a: Key, b: Key)
    requires |a| == |b| == |sources| > 0 && a[0] != b[0]
    ensures KeyBefore(sources, a, b) <==> Comes(sources[0], a[0], b[0])
  {
    if i: nat :| ComesAt(sources, a, b, i) {
      if i > 0 {
        SameHead(a, b, i);
      }
    }
    assert Comes(sources[0], a[0], b[0]) ==> ComesAt(sources, a, b, 0);
  }

  lemma KeyTail(sources: seq<Source>, a: Key, b: Key)
    requires |a| == |b| == |sources| > 0 && a[0] == b[0]
    ensures KeyBefore(sources, a, b) <==> KeyBefore(sources[1..], a[1..], b[1..])
  {
    if i: nat :| ComesAt(sources, a, b, i) {
      assert !Comes(sources[0], a[0], a[0]) by {
        ComesExactly(sources[0], a[0], a[0]);
        AtFlips(sources[0], a[0], a[0]);
      }
      assert a[1..][..i - 1] == a[..i][1..] && b[1..][..i - 1] == b[..i][1..];
      assert ComesAt(sources[1..], a[1..], b[1..], i - 1);
    }
    if i: nat :| ComesAt(sources[1..], a[1..], b[1..], i) {
      assert a[..i + 1] == [a[0]] + a[1..][..i] && b[..i + 1] == [b[0]] + b[1..][..i];
      assert ComesAt(sources, a, b, i + 1);
    }
  }
}

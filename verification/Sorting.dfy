/** Sorting by a comparison that is a strict total order on the elements at hand. */
module Sorting {
  import opened Lists

  /** No two of the elements are equal in the order, and it is transitive on them. */
  ghost predicate Total<T(!new)>(less: (T, T) -> bool, s: seq<T>) {
    && (forall x, y :: x in s && y in s ==> (less(x, y) || x == y || less(y, x)))
    && (forall x, y :: x in s && y in s ==> !(less(x, y) && less(y, x)))
    && (forall x, y, z :: x in s && y in s && z in s && less(x, y) && less(y, z) ==> less(x, z))
  }

  ghost predicate Ascending<T>(less: (T, T) -> bool, s: seq<T>) {
    forall i, j :: 0 <= i < j < |s| ==> less(s[i], s[j])
  }

  function Insert<T>(less: (T, T) -> bool, sorted: seq<T>, x: T): (out: seq<T>) {
    if sorted == [] || less(x, sorted[0]) then [x] + sorted else [sorted[0]] + Insert(less, sorted[1..], x)
  }

  /** A stable sort; elements that are all different have one order. */
  function Sort<T>(less: (T, T) -> bool, s: seq<T>): (out: seq<T>) {
    if s == [] then [] else Insert(less, Sort(less, s[..|s| - 1]), s[|s| - 1])
  }

  lemma TotalOnPart<T(!new)>(less: (T, T) -> bool, s: seq<T>, part: seq<T>)
    requires Total(less, s) && forall x :: x in part ==> x in s
    ensures Total(less, part)
  {
  }

  lemma {:induction false} InsertMembers<T>(less: (T, T) -> bool, sorted: seq<T>, x: T)
    ensures multiset(Insert(less, sorted, x)) == multiset(sorted) + multiset{x}
  {
    if sorted == [] || less(x, sorted[0]) {
    } else {
      InsertMembers(less, sorted[1..], x);
      assert sorted == [sorted[0]] + sorted[1..];
    }
  }

  lemma {:induction false} SortMembers<T>(less: (T, T) -> bool, s: seq<T>)
    ensures multiset(Sort(less, s)) == multiset(s)
    ensures |Sort(less, s)| == |s|
    ensures forall x :: x in Sort(less, s) <==> x in s
  {
    if s != [] {
      SortMembers(less, s[..|s| - 1]);
      InsertMembers(less, Sort(less, s[..|s| - 1]), s[|s| - 1]);
      assert s == s[..|s| - 1] + [s[|s| - 1]];
    }
    SameMembers(Sort(less, s), s);
  }

  lemma SameMembers<T>(a: seq<T>, b: seq<T>)
    requires multiset(a) == multiset(b)
    ensures |a| == |b| && forall x :: x in a <==> x in b
  {
    assert |multiset(a)| == |a| && |multiset(b)| == |b|;
    forall x ensures x in a <==> x in b {
      assert x in multiset(a) <==> x in a;
      assert x in multiset(b) <==> x in b;
    }
  }

  lemma {:induction false} InsertAscends<T(!new)>(less: (T, T) -> bool, sorted: seq<T>, x: T)
    requires Total(less, sorted + [x]) && Ascending(less, sorted) && x !in sorted
    ensures Ascending(less, Insert(less, sorted, x))
  {
    if sorted != [] {
      assert sorted[0] in sorted + [x] && x in sorted + [x];
      if less(x, sorted[0]) {
        forall j | 0 < j < |sorted| ensures less(x, sorted[j]) {
          assert less(sorted[0], sorted[j]) && sorted[j] in sorted + [x];
        }
      } else {
        TotalOnPart(less, sorted + [x], sorted[1..] + [x]);
        InsertAscends(less, sorted[1..], x);
        InsertMembers(less, sorted[1..], x);
        var rest := Insert(less, sorted[1..], x);
        SameMembers(rest, sorted[1..] + [x]);
        forall j | 0 <= j < |rest| ensures less(sorted[0], rest[j]) {
          assert rest[j] in sorted[1..] + [x];
        }
      }
    }
  }

  lemma {:induction false} SortAscends<T(!new)>(less: (T, T) -> bool, s: seq<T>)
    requires Total(less, s) && Distinct(s)
    ensures Ascending(less, Sort(less, s))
  {
    if s != [] {
      var n := |s| - 1;
      var init, x := s[..n], s[n];
      TotalOnPart(less, s, init);
      SortAscends(less, init);
      SortMembers(less, init);
      TotalOnPart(less, s, Sort(less, init) + [x]);
      InsertAscends(less, Sort(less, init), x);
    }
  }

  /** Ascending lists of the same elements are the same list. */
  lemma {:induction false} AscendingUnique<T(!new)>(less: (T, T) -> bool, a: seq<T>, b: seq<T>)
    requires Total(less, a) && Ascending(less, a) && Ascending(less, b) && forall x :: x in a <==> x in b
    ensures a == b
  {
    HeadIn(a);
    HeadIn(b);
    if a != [] && b != [] {
      assert a[0] == b[0] by {
        if a[0] != b[0] {
          HeadIsLeast(less, a, b[0]);
          HeadIsLeast(less, b, a[0]);
        }
      }
      TotalOnPart(less, a, a[1..]);
      forall x ensures x in a[1..] <==> x in b[1..] {
        TailIn(less, a, x);
        TotalOnPart(less, a, b);
        TailIn(less, b, x);
      }
      AscendingUnique(less, a[1..], b[1..]);
    }
  }

  lemma HeadIn<T>(s: seq<T>)
    ensures s != [] ==> s[0] in s
  {
  }

  lemma HeadIsLeast<T>(less: (T, T) -> bool, s: seq<T>, x: T)
    requires Ascending(less, s) && x in s && x != s[0]
    ensures less(s[0], x)
  {
  }

  lemma TailIn<T(!new)>(less: (T, T) -> bool, s: seq<T>, x: T)
    requires Total(less, s) && Ascending(less, s) && s != []
    ensures x in s[1..] <==> x in s && x != s[0]
  {
    if x in s && x != s[0] {
      var i :| 0 <= i < |s| && s[i] == x;
      assert s[1..][i - 1] == x;
    }
    if x in s[1..] {
      assert less(s[0], x) && x in s;
    }
  }

  /** An ascending list is its own sorted form. */
  lemma SortSorted<T(!new)>(less: (T, T) -> bool, s: seq<T>)
    requires Total(less, s) && Ascending(less, s)
    ensures Sort(less, s) == s
  {
    AscendingDistinct(less, s);
    SortAscends(less, s);
    SortMembers(less, s);
    TotalOnPart(less, s, Sort(less, s));
    AscendingUnique(less, Sort(less, s), s);
  }

  lemma AscendingDistinct<T(!new)>(less: (T, T) -> bool, s: seq<T>)
    requires Total(less, s) && Ascending(less, s)
    ensures Distinct(s)
  {
    forall i, j | 0 <= i < j < |s| ensures s[i] != s[j] {
      assert less(s[i], s[j]) && s[i] in s && s[j] in s;
    }
  }

  // ---------------------------------------------------------------- ranks

  ghost function Members<T(!new)>(s: seq<T>): set<T> { set y | y in s }

  ghost function Below<T(!new)>(less: (T, T) -> bool, s: seq<T>, x: T): set<T> { set y | y in s && less(y, x) }

  /** The elements before a position of an ascending list are those below the element there. */
  lemma {:induction false} BelowIsBefore<T(!new)>(less: (T, T) -> bool, s: seq<T>, i: nat, n: nat)
    requires Total(less, s) && Ascending(less, s) && i < |s| && n <= i
    ensures |Members(s[..n])| == n
    ensures n == i ==> Below(less, s, s[i]) == Members(s[..n])
    decreases n
  {
    if n > 0 {
      BelowIsBefore(less, s, i, n - 1);
      AscendingDistinct(less, s);
      assert s[..n] == s[..n - 1] + [s[n - 1]];
      assert Members(s[..n]) == Members(s[..n - 1]) + {s[n - 1]};
    }
    if n == i {
      forall y | y in s ensures y in Below(less, s, s[i]) <==> y in s[..n] {
        BeforeIsLess(less, s, i, y);
      }
      assert forall y :: y in s[..n] ==> y in s;
    }
  }

  lemma BeforeIsLess<T(!new)>(less: (T, T) -> bool, s: seq<T>, i: nat, y: T)
    requires Total(less, s) && Ascending(less, s) && i < |s|
    ensures y in s && less(y, s[i]) <==> y in s[..i]
  {
    if y in s && less(y, s[i]) {
      var j :| 0 <= j < |s| && s[j] == y;
      assert s[i] in s;
      if j < i {
        assert s[..i][j] == y;
      }
    }
  }

  function Least(m: nat, n: nat): nat { if m < n then m else n }

  /** The first n elements in order are those that have less than n elements below them. */
  lemma FirstByRank<T(!new)>(less: (T, T) -> bool, s: seq<T>, n: nat, x: T)
    requires Total(less, s) && Distinct(s)
    ensures x in Sort(less, s)[..Least(n, |Sort(less, s)|)] <==> x in s && |Below(less, s, x)| < n
  {
    var sorted := Sort(less, s);
    SortAscends(less, s);
    SortMembers(less, s);
    TotalOnPart(less, s, sorted);
    AscendingDistinct(less, sorted);
    if x in s {
      var i :| 0 <= i < |sorted| && sorted[i] == x;
      BelowIsBefore(less, sorted, i, i);
      assert Below(less, s, x) == Below(less, sorted, x);
      if i < n {
        assert sorted[..Least(n, |sorted|)][i] == x;
      }
    }
  }
}

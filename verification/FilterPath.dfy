/**
 * Response filtering with filter_path, http_filterpath.go: cursors over dotted paths walk a JSON
 * tree and keep (include filters) or drop (exclude filters) what they match.
 *
 * An object is the sequence of its members (the source iterates a Go map, so the order is
 * arbitrary but fixed here); numbers, strings, booleans and null are opaque scalars.
 */
module FilterPath {
  import Glob

  datatype Json =
    | Scalar(text: string)
    | Object(members: seq<Member>)
    | Array(items: seq<Json>)

  datatype Member = Member(name: string, value: Json)

  datatype Cursor = Cursor(segments: seq<string>, index: nat)

  // ---------------------------------------------------------------- the walk of the source

  predicate SegmentMatches(seg: string, name: string) {
    seg == "*" || seg == "**" || Glob.Globs(seg, name)
  }

  /** What one cursor adds for a name: whether it is complete, or the cursors it leaves for the level below. */
  function Contribution(name: string, c: Cursor): (r: (bool, seq<Cursor>)) {
    if c.index >= |c.segments| || !SegmentMatches(c.segments[c.index], name) then (false, [])
    else if c.index + 1 == |c.segments| then (true, [])
    else
      (false, (if c.segments[c.index] == "**" then [c] else []) + [Cursor(c.segments, c.index + 1)])
  }

  /** evaluateFilterPath: whether some cursor is complete after `name`, and the cursors below it. */
  function Evaluate(name: string, cursors: seq<Cursor>): (r: (bool, seq<Cursor>))
    ensures r.0 ==> r.1 == []
  {
    if cursors == [] then (false, [])
    else
      var (matched, added) := Contribution(name, cursors[0]);
      var (below, next) := Evaluate(name, cursors[1..]);
      if matched || below then (true, []) else (false, added + next)
  }

  /** filterValue: the filtered value and whether anything is left of it. */
  function FilterValue(v: Json, cursors: seq<Cursor>, inclusive: bool): (r: (Json, bool))
    decreases v, 1
  {
    match v
    case Scalar(_) => (v, !inclusive)
    case Object(members) =>
      var out := FilterMembers(v, |members|, cursors, inclusive);
      (Object(out), |out| > 0)
    case Array(items) =>
      var out := FilterItems(v, |items|, cursors, inclusive);
      (Array(out), |out| > 0)
  }

  /** What the loop over the members of an object writes for one member: the member, its filtered form, or nothing. */
  function FilterMember(m: Member, cursors: seq<Cursor>, inclusive: bool): (out: seq<Member>)
    ensures |out| <= 1
    decreases m, 2
  {
    var (matched, next) := Evaluate(m.name, cursors);
    if matched then (if inclusive then [m] else [])
    else if next == [] then (if inclusive then [] else [m])
    else
      var (r, ok) := FilterValue(m.value, next, inclusive);
      if ok then [Member(m.name, r)] else []
  }

  /** The loop over the first n members of an object. */
  function FilterMembers(v: Json, n: nat, cursors: seq<Cursor>, inclusive: bool): (out: seq<Member>)
    requires v.Object? && n <= |v.members|
    decreases v, 0, n
  {
    if n == 0 then []
    else FilterMembers(v, n - 1, cursors, inclusive) + FilterMember(v.members[n - 1], cursors, inclusive)
  }

  /** The loop over the first n items of an array. */
  function FilterItems(v: Json, n: nat, cursors: seq<Cursor>, inclusive: bool): (out: seq<Json>)
    requires v.Array? && n <= |v.items|
    decreases v, 0, n
  {
    if n == 0 then []
    else
      var done := FilterItems(v, n - 1, cursors, inclusive);
      var (r, ok) := FilterValue(v.items[n - 1], cursors, inclusive);
      if ok then done + [r] else done
  }

  method SegmentFits(seg: string, name: string) returns (b: bool)
    ensures b == SegmentMatches(seg, name)
  {
    Glob.GlobsIsDenotes(seg, name);
    b := seg == "*" || seg == "**";
    if !b {
      b := Glob.GlobMatch(seg, name);
    }
  }

  /** The loop of evaluateFilterPath. */
  method EvaluateFilterPath(name: string, cursors: seq<Cursor>) returns (matched: bool, next: seq<Cursor>)
    ensures (matched, next) == Evaluate(name, cursors)
  {
    next := [];
    var i := 0;
    assert cursors[..0] == [];
    while i < |cursors|
      invariant 0 <= i <= |cursors|
      invariant Evaluate(name, cursors[..i]) == (false, next)
    {
      var c := cursors[i];
      EvaluateSnoc(name, cursors[..i], c);
      assert cursors[..i + 1] == cursors[..i] + [c];
      if c.index < |c.segments| {
        var seg := c.segments[c.index];
        var fits := SegmentFits(seg, name);
        if fits {
          if c.index + 1 == |c.segments| {
            assert cursors == cursors[..i + 1] + cursors[i + 1..];
            EvaluateStops(name, cursors[..i + 1], cursors[i + 1..]);
            return true, [];
          }
          ghost var before, added := next, Contribution(name, c).1;
          if seg == "**" {
            next := next + [c];
          }
          next := next + [Cursor(c.segments, c.index + 1)];
          assert next == before + added;
        } else {
          assert next + [] == next;
        }
      } else {
        assert next + [] == next;
      }
      i := i + 1;
    }
    assert cursors[..i] == cursors;
    return false, next;
  }

  lemma {:induction false} EvaluateSnoc(name: string, cursors: seq<Cursor>, c: Cursor)
    ensures var (matched, next) := Evaluate(name, cursors);
            var (last, added) := Contribution(name, c);
            Evaluate(name, cursors + [c]) == if matched || last then (true, []) else (false, next + added)
  {
    if cursors == [] {
      assert ([] + [c])[1..] == [];
      assert Contribution(name, c).1 + [] == Contribution(name, c).1 == [] + Contribution(name, c).1;
    } else {
      EvaluateSnoc(name, cursors[1..], c);
      assert (cursors + [c])[1..] == cursors[1..] + [c];
      var added := Contribution(name, cursors[0]).1;
      assert added + (Evaluate(name, cursors[1..]).1 + Contribution(name, c).1)
          == added + Evaluate(name, cursors[1..]).1 + Contribution(name, c).1;
    }
  }

  lemma {:induction false} EvaluateStops(name: string, a: seq<Cursor>, b: seq<Cursor>)
    requires Evaluate(name, a).0
    ensures Evaluate(name, a + b) == (true, [])
  {
    assert (a + b)[1..] == a[1..] + b;
    if !Contribution(name, a[0]).0 {
      EvaluateStops(name, a[1..], b);
    }
  }

  // ---------------------------------------------------------------- what a path stands for

  /** A scalar of a tree and the object keys that lead to it (array positions do not count). */
  datatype Leaf = Leaf(path: seq<string>, text: string)

  ghost function Leaves(v: Json): seq<Leaf>
    decreases v, 1
  {
    match v
    case Scalar(text) => [Leaf([], text)]
    case Object(members) => MemberLeaves(v, |members|)
    case Array(items) => ItemLeaves(v, |items|)
  }

  ghost function MemberLeaves(v: Json, n: nat): seq<Leaf>
    requires v.Object? && n <= |v.members|
    decreases v, 0, n
  {
    if n == 0 then []
    else MemberLeaves(v, n - 1) + Below(v.members[n - 1].name, Leaves(v.members[n - 1].value))
  }

  ghost function ItemLeaves(v: Json, n: nat): seq<Leaf>
    requires v.Array? && n <= |v.items|
    decreases v, 0, n
  {
    if n == 0 then [] else ItemLeaves(v, n - 1) + Leaves(v.items[n - 1])
  }

  ghost function Below(name: string, leaves: seq<Leaf>): seq<Leaf> {
    seq(|leaves|, i requires 0 <= i < |leaves| => Leaf([name] + leaves[i].path, leaves[i].text))
  }

  /** A filter covers a list of keys; `**` stands for one or more of them. */
  ghost predicate Covers(filter: seq<string>, names: seq<string>)
    decreases |filter| + |names|
  {
    if filter == [] then names == []
    else
      && names != []
      && Glob.Denotes(filter[0], names[0])
      && (Covers(filter[1..], names[1..]) || (filter[0] == "**" && Covers(filter, names[1..])))
  }

  /** Some non-empty prefix of the path is covered by the filter. */
  ghost predicate Selects(filter: seq<string>, path: seq<string>) {
    exists k :: 1 <= k <= |path| && Covers(filter, path[..k])
  }

  ghost predicate AnySelects(cursors: seq<Cursor>, path: seq<string>) {
    exists c :: c in cursors && c.index <= |c.segments| && Selects(c.segments[c.index..], path)
  }

  /** The leaves with a wanted path, in order. */
  ghost function Pick(leaves: seq<Leaf>, wanted: seq<string> -> bool): seq<Leaf> {
    if leaves == [] then []
    else (if wanted(leaves[0].path) then [leaves[0]] else []) + Pick(leaves[1..], wanted)
  }

  ghost function Verdict(cursors: seq<Cursor>, keep: bool): seq<string> -> bool {
    path => AnySelects(cursors, path) == keep
  }

  /** The leaves whose path is selected (keep) or not selected (!keep) by the cursors, in order. */
  ghost function Chosen(leaves: seq<Leaf>, cursors: seq<Cursor>, keep: bool): seq<Leaf> {
    Pick(leaves, Verdict(cursors, keep))
  }

  // ---------------------------------------------------------------- one step of the walk

  lemma SelectsStep(filter: seq<string>, name: string, path: seq<string>)
    requires filter != []
    ensures Selects(filter, [name] + path) <==>
            Glob.Denotes(filter[0], name)
            && (|filter| == 1 || Selects(filter[1..], path) || (filter[0] == "**" && Selects(filter, path)))
  {
    hide Glob.Denotes;
    var whole := [name] + path;
    if Selects(filter, whole) {
      var k :| 1 <= k <= |whole| && Covers(filter, whole[..k]);
      assert whole[..k][0] == name && whole[..k][1..] == path[..k - 1];
      if k == 1 {
        assert whole[..1][1..] == [];
        assert !Covers(filter, []);
        assert Covers(filter[1..], whole[..1][1..]);
        assert |filter| == 1;
      } else if Covers(filter[1..], path[..k - 1]) {
        assert |filter| == 1 || Selects(filter[1..], path);
      } else {
        assert filter[0] == "**" && Covers(filter, path[..k - 1]);
        assert Selects(filter, path);
      }
    }
    if Glob.Denotes(filter[0], name) {
      if |filter| == 1 {
        assert whole[..1][1..] == [] && filter[1..] == [];
        assert Covers(filter, whole[..1]);
      } else if Selects(filter[1..], path) {
        var k :| 1 <= k <= |path| && Covers(filter[1..], path[..k]);
        assert whole[..k + 1][1..] == path[..k];
        assert Covers(filter, whole[..k + 1]);
      } else if filter[0] == "**" && Selects(filter, path) {
        var k :| 1 <= k <= |path| && Covers(filter, path[..k]);
        assert whole[..k + 1][1..] == path[..k];
        assert Covers(filter, whole[..k + 1]);
      }
    }
  }

  /** A segment of a filter matches what it denotes as a pattern; `*` and `**` denote every name. */
  lemma SegmentIsGlob(seg: string, name: string)
    ensures SegmentMatches(seg, name) <==> Glob.Denotes(seg, name)
  {
    Glob.GlobsIsDenotes(seg, name);
    Glob.CaseSuffix("*", name);
    Glob.CaseStarStar("**", name);
    assert "**"[1..] == "*";
  }

  lemma ContributionStep(name: string, c: Cursor, path: seq<string>)
    ensures var (matched, added) := Contribution(name, c);
            (c.index <= |c.segments| && Selects(c.segments[c.index..], [name] + path))
            <==> matched || AnySelects(added, path)
  {
    var filter := if c.index <= |c.segments| then c.segments[c.index..] else [];
    assert !AnySelects([], path);
    assert [] != [name] && !Selects([], [name] + path);
    if filter != [] {
      SegmentIsGlob(filter[0], name);
      SelectsStep(filter, name, path);
      var after := Cursor(c.segments, c.index + 1);
      assert filter[1..] == c.segments[c.index + 1..];
      AnySplit(c, [after], path);
      AnySplit(after, [], path);
      assert [] + [after] == [after] && [after] + [] == [after];
    }
  }

  /** evaluateFilterPath is one step of path selection: the verdict for everything below the name, or the cursors for it. */
  lemma {:induction false} EvaluateStep(name: string, cursors: seq<Cursor>, path: seq<string>)
    ensures var (matched, next) := Evaluate(name, cursors);
            AnySelects(cursors, [name] + path) <==> matched || AnySelects(next, path)
  {
    if cursors != [] {
      var c, rest := cursors[0], cursors[1..];
      EvaluateStep(name, rest, path);
      ContributionStep(name, c, path);
      AnySplit(c, rest, [name] + path);
      assert cursors == [c] + rest;
      AnyAppend(Contribution(name, c).1, Evaluate(name, rest).1, path);
    }
  }

  lemma AnySplit(c: Cursor, rest: seq<Cursor>, path: seq<string>)
    ensures AnySelects([c] + rest, path) <==>
            (c.index <= |c.segments| && Selects(c.segments[c.index..], path)) || AnySelects(rest, path)
  {
    assert forall d :: d in [c] + rest <==> d == c || d in rest;
  }

  lemma AnyAppend(a: seq<Cursor>, b: seq<Cursor>, path: seq<string>)
    ensures AnySelects(a + b, path) <==> AnySelects(a, path) || AnySelects(b, path)
  {
    assert forall d :: d in a + b <==> d in a || d in b;
  }

  // ---------------------------------------------------------------- whole trees

  lemma {:induction false} PickAppend(a: seq<Leaf>, b: seq<Leaf>, wanted: seq<string> -> bool)
    ensures Pick(a + b, wanted) == Pick(a, wanted) + Pick(b, wanted)
    decreases |a|
  {
    if a == [] {
      assert a + b == b;
    } else {
      PickAppend(a[1..], b, wanted);
      assert (a + b)[1..] == a[1..] + b;
    }
  }

  lemma {:induction false} PickBelow(name: string, leaves: seq<Leaf>, wanted: seq<string> -> bool, below: seq<string> -> bool)
    requires forall path :: wanted([name] + path) == below(path)
    ensures Pick(Below(name, leaves), wanted) == Below(name, Pick(leaves, below))
    decreases |leaves|
  {
    if leaves != [] {
      PickBelow(name, leaves[1..], wanted, below);
      assert Below(name, leaves)[1..] == Below(name, leaves[1..]);
      assert wanted([name] + leaves[0].path) == below(leaves[0].path);
    }
  }

  lemma {:induction false} PickEvenly(leaves: seq<Leaf>, wanted: seq<string> -> bool, keep: bool)
    requires forall leaf :: leaf in leaves ==> wanted(leaf.path) == keep
    ensures Pick(leaves, wanted) == if keep then leaves else []
    decreases |leaves|
  {
    if leaves != [] {
      PickEvenly(leaves[1..], wanted, keep);
      assert leaves[0] in leaves;
    }
  }

  /** Selecting below a name with the cursors is selecting the leaves under it with the next cursors. */
  lemma ChosenBelow(name: string, leaves: seq<Leaf>, cursors: seq<Cursor>, keep: bool)
    ensures var (matched, next) := Evaluate(name, cursors);
            Chosen(Below(name, leaves), cursors, keep)
            == if matched then (if keep then Below(name, leaves) else []) else Below(name, Chosen(leaves, next, keep))
  {
    hide Evaluate, AnySelects, Pick;
    var (matched, next) := Evaluate(name, cursors);
    forall path ensures AnySelects(cursors, [name] + path) <==> matched || AnySelects(next, path) {
      EvaluateStep(name, cursors, path);
    }
    if matched {
      forall leaf | leaf in Below(name, leaves) ensures Verdict(cursors, keep)(leaf.path) == keep {
        assert exists i :: 0 <= i < |leaves| && leaf.path == [name] + leaves[i].path;
      }
      PickEvenly(Below(name, leaves), Verdict(cursors, keep), keep);
    } else {
      PickBelow(name, leaves, Verdict(cursors, keep), Verdict(next, keep));
    }
  }

  lemma ChosenByNone(leaves: seq<Leaf>, keep: bool)
    ensures Chosen(leaves, [], keep) == if keep then [] else leaves
  {
    forall path ensures Verdict([], keep)(path) == !keep {
      assert !AnySelects([], path);
    }
    PickEvenly(leaves, Verdict([], keep), !keep);
  }

  /** What is left of a value: nothing when filterValue reports so. */
  ghost function Remaining(r: (Json, bool)): seq<Leaf> {
    if r.1 then Leaves(r.0) else []
  }

  /**
   * filterValue keeps, in document order, exactly the scalars whose path is selected (inclusive)
   * or exactly those whose path is not selected (exclusive).
   */
  lemma {:induction false} FilterValueExact(v: Json, cursors: seq<Cursor>, inclusive: bool)
    ensures Remaining(FilterValue(v, cursors, inclusive)) == Chosen(Leaves(v), cursors, inclusive)
    decreases v, 1
  {
    match v
    case Scalar(text) =>
      assert Leaves(v)[1..] == [];
      assert forall filter :: !Selects(filter, []);
      assert !AnySelects(cursors, []);
      assert Verdict(cursors, inclusive)([]) == !inclusive;
      assert Leaves(v)[1..] == [] && Leaves(v)[0].path == [];
      assert Pick(Leaves(v)[1..], Verdict(cursors, inclusive)) == [];
    case Object(members) =>
      FilterMembersExact(v, |members|, cursors, inclusive);
    case Array(items) =>
      FilterItemsExact(v, |items|, cursors, inclusive);
  }

  lemma MemberLeavesAppend(done: seq<Member>, kept: seq<Member>)
    requires |kept| <= 1
    ensures MemberLeaves(Object(done + kept), |done + kept|)
            == MemberLeaves(Object(done), |done|)
               + if kept == [] then [] else Below(kept[0].name, Leaves(kept[0].value))
  {
    if kept == [] {
      assert done + kept == done;
      assert MemberLeaves(Object(done), |done|) + [] == MemberLeaves(Object(done), |done|);
    } else {
      MemberLeavesPrefix(done, kept, |done|);
    }
  }

  lemma {:induction false} MemberLeavesPrefix(a: seq<Member>, b: seq<Member>, n: nat)
    requires n <= |a|
    ensures MemberLeaves(Object(a + b), n) == MemberLeaves(Object(a), n)
  {
    if n > 0 {
      MemberLeavesPrefix(a, b, n - 1);
    }
  }

  lemma ItemLeavesSnoc(items: seq<Json>, v: Json)
    ensures ItemLeaves(Array(items + [v]), |items| + 1) == ItemLeaves(Array(items), |items|) + Leaves(v)
  {
    ItemLeavesPrefix(items, [v], |items|);
  }

  lemma {:induction false} ItemLeavesPrefix(a: seq<Json>, b: seq<Json>, n: nat)
    requires n <= |a|
    ensures ItemLeaves(Array(a + b), n) == ItemLeaves(Array(a), n)
  {
    if n > 0 {
      ItemLeavesPrefix(a, b, n - 1);
    }
  }

  lemma {:induction false} FilterMemberExact(m: Member, cursors: seq<Cursor>, inclusive: bool)
    ensures var out := FilterMember(m, cursors, inclusive);
            out == [] ==> Chosen(Below(m.name, Leaves(m.value)), cursors, inclusive) == []
    ensures var out := FilterMember(m, cursors, inclusive);
            out != [] ==> Below(out[0].name, Leaves(out[0].value))
                          == Chosen(Below(m.name, Leaves(m.value)), cursors, inclusive)
    decreases m, 2
  {
    var leaves := Leaves(m.value);
    var (matched, next) := Evaluate(m.name, cursors);
    ChosenBelow(m.name, leaves, cursors, inclusive);
    if !matched && next == [] {
      ChosenByNone(leaves, inclusive);
    } else if !matched {
      FilterValueExact(m.value, next, inclusive);
    }
  }

  lemma NothingChosen(cursors: seq<Cursor>, keep: bool)
    ensures Chosen([], cursors, keep) == []
  {
  }

  lemma {:induction false} FilterMembersExact(v: Json, n: nat, cursors: seq<Cursor>, inclusive: bool)
    requires v.Object? && n <= |v.members|
    ensures var out := FilterMembers(v, n, cursors, inclusive);
            MemberLeaves(Object(out), |out|) == Chosen(MemberLeaves(v, n), cursors, inclusive)
    decreases v, 0, n
  {
    hide Pick, Evaluate, FilterMember, FilterValue, Below, Leaves;
    NothingChosen(cursors, inclusive);
    if n > 0 {
      var m := v.members[n - 1];
      FilterMembersExact(v, n - 1, cursors, inclusive);
      PickAppend(MemberLeaves(v, n - 1), Below(m.name, Leaves(m.value)), Verdict(cursors, inclusive));
      FilterMemberExact(m, cursors, inclusive);
      MemberLeavesAppend(FilterMembers(v, n - 1, cursors, inclusive), FilterMember(m, cursors, inclusive));
    }
  }

  lemma {:induction false} FilterItemsExact(v: Json, n: nat, cursors: seq<Cursor>, inclusive: bool)
    requires v.Array? && n <= |v.items|
    ensures var out := FilterItems(v, n, cursors, inclusive);
            ItemLeaves(Array(out), |out|) == Chosen(ItemLeaves(v, n), cursors, inclusive)
    decreases v, 0, n
  {
    hide Pick, FilterValue, Leaves;
    NothingChosen(cursors, inclusive);
    if n > 0 {
      FilterItemsExact(v, n - 1, cursors, inclusive);
      PickAppend(ItemLeaves(v, n - 1), Leaves(v.items[n - 1]), Verdict(cursors, inclusive));
      FilterValueExact(v.items[n - 1], cursors, inclusive);
      ItemLeavesSnoc(FilterItems(v, n - 1, cursors, inclusive), FilterValue(v.items[n - 1], cursors, inclusive).0);
    }
  }

  /** The two modes partition the scalars of any tree. */
  lemma ModesPartition(v: Json, cursors: seq<Cursor>)
    ensures multiset(Remaining(FilterValue(v, cursors, true))) + multiset(Remaining(FilterValue(v, cursors, false)))
            == multiset(Leaves(v))
  {
    FilterValueExact(v, cursors, true);
    FilterValueExact(v, cursors, false);
    ChosenPartition(Leaves(v), cursors);
  }

  lemma {:induction false} ChosenPartition(leaves: seq<Leaf>, cursors: seq<Cursor>)
    ensures multiset(Chosen(leaves, cursors, true)) + multiset(Chosen(leaves, cursors, false)) == multiset(leaves)
  {
    if leaves != [] {
      ChosenPartition(leaves[1..], cursors);
      assert leaves == [leaves[0]] + leaves[1..];
    }
  }

  // ---------------------------------------------------------------- what is left is the tree with parts removed

  /** r is v without some members and items, at any depth; what stays is where it was, in the same order, and nothing inside is emptied. */
  ghost predicate Pruned(r: Json, v: Json)
    decreases v, 1
  {
    match v
    case Scalar(_) => r == v
    case Object(_) => r.Object? && PrunedMembers(r.members, v, |v.members|)
    case Array(_) => r.Array? && PrunedItems(r.items, v, |v.items|)
  }

  predicate Empty(v: Json) { (v.Object? && v.members == []) || (v.Array? && v.items == []) }

  /** A value inside the tree stays as it is, or without some parts and not emptied. */
  ghost predicate Stays(r: Json, v: Json)
    decreases v, 2
  {
    r == v || (!Empty(r) && Pruned(r, v))
  }

  ghost predicate PrunedMembers(out: seq<Member>, v: Json, n: nat)
    requires v.Object? && n <= |v.members|
    decreases v, 0, n
  {
    if n == 0 then out == []
    else
      || PrunedMembers(out, v, n - 1)
      || (out != [] && out[|out| - 1].name == v.members[n - 1].name && Stays(out[|out| - 1].value, v.members[n - 1].value)
          && PrunedMembers(out[..|out| - 1], v, n - 1))
  }

  ghost predicate PrunedItems(out: seq<Json>, v: Json, n: nat)
    requires v.Array? && n <= |v.items|
    decreases v, 0, n
  {
    if n == 0 then out == []
    else
      || PrunedItems(out, v, n - 1)
      || (out != [] && Stays(out[|out| - 1], v.items[n - 1]) && PrunedItems(out[..|out| - 1], v, n - 1))
  }

  lemma {:induction false} PrunedSelf(v: Json)
    ensures Pruned(v, v)
    decreases v, 1
  {
    match v
    case Scalar(_) =>
    case Object(members) =>
      PrunedSelfMembers(v, |members|);
      assert members[..|members|] == members;
    case Array(items) =>
      PrunedSelfItems(v, |items|);
      assert items[..|items|] == items;
  }

  lemma {:induction false} PrunedSelfMembers(v: Json, n: nat)
    requires v.Object? && n <= |v.members|
    ensures PrunedMembers(v.members[..n], v, n)
    decreases v, 0, n
  {
    if n > 0 {
      PrunedSelfMembers(v, n - 1);
      assert v.members[..n][..n - 1] == v.members[..n - 1];
    }
  }

  lemma {:induction false} PrunedSelfItems(v: Json, n: nat)
    requires v.Array? && n <= |v.items|
    ensures PrunedItems(v.items[..n], v, n)
    decreases v, 0, n
  {
    if n > 0 {
      PrunedSelfItems(v, n - 1);
      assert v.items[..n][..n - 1] == v.items[..n - 1];
    }
  }

  /** filterValue removes members and items and changes nothing else. */
  lemma {:induction false} FilterPrunes(v: Json, cursors: seq<Cursor>, inclusive: bool)
    ensures Pruned(FilterValue(v, cursors, inclusive).0, v)
    decreases v, 1
  {
    match v
    case Scalar(_) =>
    case Object(members) => FilterPrunesMembers(v, |members|, cursors, inclusive);
    case Array(items) => FilterPrunesItems(v, |items|, cursors, inclusive);
  }

  lemma {:induction false} FilterPrunesMembers(v: Json, n: nat, cursors: seq<Cursor>, inclusive: bool)
    requires v.Object? && n <= |v.members|
    ensures PrunedMembers(FilterMembers(v, n, cursors, inclusive), v, n)
    decreases v, 0, n
  {
    if n > 0 {
      var m := v.members[n - 1];
      FilterPrunesMembers(v, n - 1, cursors, inclusive);
      FilterPrunes(m.value, Evaluate(m.name, cursors).1, inclusive);
      var done, kept := FilterMembers(v, n - 1, cursors, inclusive), FilterMember(m, cursors, inclusive);
      if kept != [] {
        assert (done + kept)[..|done|] == done && (done + kept)[|done|] == kept[0];
      } else {
        assert done + kept == done;
      }
    }
  }

  lemma {:induction false} FilterPrunesItems(v: Json, n: nat, cursors: seq<Cursor>, inclusive: bool)
    requires v.Array? && n <= |v.items|
    ensures PrunedItems(FilterItems(v, n, cursors, inclusive), v, n)
    decreases v, 0, n
  {
    if n > 0 {
      FilterPrunesItems(v, n - 1, cursors, inclusive);
      FilterPrunes(v.items[n - 1], cursors, inclusive);
      var done, r := FilterItems(v, n - 1, cursors, inclusive), FilterValue(v.items[n - 1], cursors, inclusive).0;
      assert (done + [r])[..|done|] == done;
    }
  }

  // ---------------------------------------------------------------- the two passes

  datatype Filters = Filters(includes: seq<seq<string>>, excludes: seq<seq<string>>)

  function Start(paths: seq<seq<string>>): seq<Cursor> {
    seq(|paths|, i requires 0 <= i < |paths| => Cursor(paths[i], 0))
  }

  /** apply, without the JSON re-encoding: an include pass, then an exclude pass; a root object is always written. */
  function Apply(fp: Filters, body: Json): (Json, bool) {
    var included := if fp.includes == [] then (body, true) else FilterValue(body, Start(fp.includes), true);
    if !included.1 && !body.Object? then (included.0, false)
    else
      var excluded := if fp.excludes == [] then (included.0, true) else FilterValue(included.0, Start(fp.excludes), false);
      if !excluded.1 && !body.Object? then (excluded.0, false) else (excluded.0, true)
  }

  ghost predicate SomeSelects(paths: seq<seq<string>>, path: seq<string>) {
    exists f :: f in paths && Selects(f, path)
  }

  lemma StartSelects(paths: seq<seq<string>>, path: seq<string>)
    ensures AnySelects(Start(paths), path) <==> SomeSelects(paths, path)
  {
    forall i | 0 <= i < |paths| ensures paths[i][0..] == paths[i] && Start(paths)[i] in Start(paths) {
    }
    if f :| f in paths && Selects(f, path) {
      var i :| 0 <= i < |paths| && paths[i] == f;
      assert Start(paths)[i] in Start(paths);
    }
  }

  lemma RootObjectLeaves(v: Json, cursors: seq<Cursor>, inclusive: bool)
    requires v.Object?
    ensures var r := FilterValue(v, cursors, inclusive); r.0.Object? && Leaves(r.0) == Remaining(r)
  {
  }

  lemma {:induction false} ChosenMembership(leaves: seq<Leaf>, cursors: seq<Cursor>, keep: bool, leaf: Leaf)
    ensures multiset(Chosen(leaves, cursors, keep))[leaf]
            == if AnySelects(cursors, leaf.path) == keep then multiset(leaves)[leaf] else 0
  {
    if leaves != [] {
      ChosenMembership(leaves[1..], cursors, keep, leaf);
      assert leaves == [leaves[0]] + leaves[1..];
    }
  }

  /**
   * What a filter_path leaves of a response: a scalar survives, as often as it occurs, iff some
   * include filter selects its path (or there is none) and no exclude filter does.
   */
  lemma ApplyExact(fp: Filters, body: Json, leaf: Leaf)
    ensures multiset(Remaining(Apply(fp, body)))[leaf]
            == if (fp.includes == [] || SomeSelects(fp.includes, leaf.path)) && !SomeSelects(fp.excludes, leaf.path)
               then multiset(Leaves(body))[leaf] else 0
  {
    StartSelects(fp.includes, leaf.path);
    StartSelects(fp.excludes, leaf.path);
    var included := if fp.includes == [] then (body, true) else FilterValue(body, Start(fp.includes), true);
    if fp.includes != [] {
      FilterValueExact(body, Start(fp.includes), true);
      ChosenMembership(Leaves(body), Start(fp.includes), true, leaf);
      if body.Object? {
        RootObjectLeaves(body, Start(fp.includes), true);
      }
    }
    if fp.excludes != [] && (included.1 || body.Object?) {
      FilterValueExact(included.0, Start(fp.excludes), false);
      ChosenMembership(Leaves(included.0), Start(fp.excludes), false, leaf);
      if body.Object? {
        RootObjectLeaves(included.0, Start(fp.excludes), false);
      }
    }
  }

  lemma {:induction false} PrunedTwice(a: Json, b: Json, c: Json)
    requires Pruned(a, b) && Pruned(b, c)
    ensures Pruned(a, c)
    decreases c, 1
  {
    match c
    case Scalar(_) =>
    case Object(_) =>
      assert b.members[..|b.members|] == b.members;
      PrunedTwiceMembers(a.members, b, |b.members|, c, |c.members|);
    case Array(_) =>
      assert b.items[..|b.items|] == b.items;
      PrunedTwiceItems(a.items, b, |b.items|, c, |c.items|);
  }

  lemma {:induction false} StaysTwice(a: Json, b: Json, c: Json)
    requires Stays(a, b) && Stays(b, c)
    ensures Stays(a, c)
    decreases c, 2
  {
    if a != b && b != c {
      PrunedTwice(a, b, c);
    }
  }

  lemma {:induction false} PrunedTwiceMembers(out: seq<Member>, b: Json, m: nat, c: Json, n: nat)
    requires b.Object? && m <= |b.members| && c.Object? && n <= |c.members|
    requires PrunedMembers(out, b, m) && PrunedMembers(b.members[..m], c, n)
    ensures PrunedMembers(out, c, n)
    decreases c, 0, n, m
  {
    if n > 0 {
      if PrunedMembers(b.members[..m], c, n - 1) {
        PrunedTwiceMembers(out, b, m, c, n - 1);
      } else {
        assert b.members[..m][..m - 1] == b.members[..m - 1];
        if PrunedMembers(out, b, m - 1) {
          PrunedTwiceMembers(out, b, m - 1, c, n - 1);
        } else {
          PrunedTwiceMembers(out[..|out| - 1], b, m - 1, c, n - 1);
          StaysTwice(out[|out| - 1].value, b.members[m - 1].value, c.members[n - 1].value);
        }
      }
    }
  }

  lemma {:induction false} PrunedTwiceItems(out: seq<Json>, b: Json, m: nat, c: Json, n: nat)
    requires b.Array? && m <= |b.items| && c.Array? && n <= |c.items|
    requires PrunedItems(out, b, m) && PrunedItems(b.items[..m], c, n)
    ensures PrunedItems(out, c, n)
    decreases c, 0, n, m
  {
    if n > 0 {
      if PrunedItems(b.items[..m], c, n - 1) {
        PrunedTwiceItems(out, b, m, c, n - 1);
      } else {
        assert b.items[..m][..m - 1] == b.items[..m - 1];
        if PrunedItems(out, b, m - 1) {
          PrunedTwiceItems(out, b, m - 1, c, n - 1);
        } else {
          PrunedTwiceItems(out[..|out| - 1], b, m - 1, c, n - 1);
          StaysTwice(out[|out| - 1], b.items[m - 1], c.items[n - 1]);
        }
      }
    }
  }

  /** A filtered response is the response with parts removed. */
  lemma ApplyPrunes(fp: Filters, body: Json)
    ensures Pruned(Apply(fp, body).0, body)
  {
    PrunedSelf(body);
    FilterPrunes(body, Start(fp.includes), true);
    var included := if fp.includes == [] then (body, true) else FilterValue(body, Start(fp.includes), true);
    PrunedSelf(included.0);
    FilterPrunes(included.0, Start(fp.excludes), false);
    PrunedTwice(Apply(fp, body).0, included.0, body);
  }
}

/**
 * The execution order of the pipeline aggregations of a level, resolvePipelineOrder in
 * internal/engine/aggs_parse.go: a depth-first walk along buckets paths that reports cycles.
 *
 * The source keys its sets by definition pointers; here a pipeline is its position in the level.
 */
module PipelineOrder {
  import opened AggPath
  import opened Lists
  import opened Options

  /** An aggregation with the levels below it; the buckets paths are those of a pipeline. */
  datatype Agg = Agg(name: string, paths: seq<string>, subs: seq<Agg>, pipes: seq<Agg>)

  datatype Level = Level(defs: seq<Agg>, pipes: seq<Agg>)

  // ---------------------------------------------------------------- where a path leads

  /** The entry has the name, and no later one has it. */
  ghost predicate NamedLast(aggs: seq<Agg>, name: string, i: nat) {
    i < |aggs| && aggs[i].name == name && forall j :: i < j < |aggs| ==> aggs[j].name != name
  }

  ghost predicate NamedFirst(aggs: seq<Agg>, name: string, i: nat) {
    i < |aggs| && aggs[i].name == name && forall j :: 0 <= j < i ==> aggs[j].name != name
  }

  ghost predicate NotNamed(aggs: seq<Agg>, name: string) { forall i :: 0 <= i < |aggs| ==> aggs[i].name != name }

  /** The entry that a map filled in this order has under the name. */
  function LastByName(aggs: seq<Agg>, name: string): (r: Option<nat>)
    ensures r.Some? ==> NamedLast(aggs, name, r.value)
    ensures r.None? ==> NotNamed(aggs, name)
  {
    if aggs == [] then None
    else if aggs[|aggs| - 1].name == name then Some(|aggs| - 1)
    else LastByName(aggs[..|aggs| - 1], name)
  }

  function FirstByName(aggs: seq<Agg>, name: string): (r: Option<nat>)
    ensures r.Some? ==> NamedFirst(aggs, name, r.value)
    ensures r.None? ==> NotNamed(aggs, name)
  {
    if aggs == [] then None
    else if aggs[0].name == name then Some(0)
    else
      match FirstByName(aggs[1..], name)
      case None => None
      case Some(i) => Some(i + 1)
  }

  /** strings.EqualFold(name, "_key"); the Kelvin sign folds to k. */
  predicate FoldsToKey(name: string) {
    && |name| == 4 && name[0] == '_'
    && name[1] in {'k', 'K', 0x212a as char} && name[2] in {'e', 'E'} && name[3] in {'y', 'Y'}
  }

  /** Simple case folding of ASCII letters and the Kelvin sign. */
  function Folded(c: char): char {
    if 'A' <= c <= 'Z' then (c as int + 0x20) as char else if c == 0x212a as char then 'k' else c
  }

  /** The names that fold to "_key". */
  lemma FoldsByCharacter(name: string)
    ensures FoldsToKey(name) <==> |name| == |"_key"| && forall i :: 0 <= i < |name| ==> Folded(name[i]) == "_key"[i]
  {
    if |name| == 4 {
      var k := "_key";
      assert k[0] == '_' && k[1] == 'k' && k[2] == 'e' && k[3] == 'y';
    }
  }

  /** The elements name a chain of sub-aggregations; the last may name a pipeline or a bucket property. */
  predicate Leads(agg: Agg, els: seq<Element>) {
    els == []
    || (|els| == 1 && (FoldsToKey(els[0].name) || els[0].name == "_count"))
    || match FirstByName(agg.subs, els[0].name)
       case Some(i) => Leads(agg.subs[i], els[1..])
       case None => |els| == 1 && FirstByName(agg.pipes, els[0].name).Some?
  }

  method LookUp(root: Agg, els: seq<Element>) returns (found: bool)
    requires els != []
    ensures found == Leads(root, els[1..])
  {
    var agg := root;
    for i := 1 to |els|
      invariant Leads(root, els[1..]) == Leads(agg, els[i..])
    {
      var name := els[i].name;
      if i == |els| - 1 && (FoldsToKey(name) || name == "_count") {
        return true;
      }
      match FirstByName(agg.subs, name) {
        case Some(s) =>
          assert els[i..][1..] == els[i + 1..];
          agg := agg.subs[s];
        case None =>
          return i == |els| - 1 && FirstByName(agg.pipes, name).Some?;
      }
    }
    return true;
  }

  datatype Target = Ignored | Aggregation | Pipeline(i: nat) | Missing

  /** What a buckets path refers to: a path that does not parse is left to the validation of the pipeline. */
  function TargetOf(l: Level, path: string): (r: Target)
    ensures r.Pipeline? ==> r.i < |l.pipes|
  {
    if path == "_count" || path == "_key" then Ignored
    else
      match Parse(path)
      case None => Ignored
      case Some(els) =>
        if els == [] then Ignored
        else
          match LastByName(l.defs, els[0].name)
          case Some(a) => if Leads(l.defs[a], els[1..]) then Aggregation else Missing
          case None =>
            match LastByName(l.pipes, els[0].name)
            case Some(p) => Pipeline(p)
            case None => Missing
  }

  // ---------------------------------------------------------------- the same by names

  /** From an aggregation through first sub-aggregations of the given names. */
  ghost predicate Descends(agg: Agg, els: seq<Element>, chain: seq<Agg>) {
    && 0 < |chain| <= |els| + 1 && chain[0] == agg
    && forall k :: 0 < k < |chain| ==> IsFirstSub(chain[k - 1], els[k - 1].name, chain[k])
  }

  ghost predicate IsFirstSub(a: Agg, name: string, sub: Agg) {
    exists i: nat :: NamedFirst(a.subs, name, i) && a.subs[i] == sub
  }

  /** What the last element may name besides a sub-aggregation. */
  ghost predicate AllowedLast(a: Agg, name: string) { FoldsToKey(name) || name == "_count" || !NotNamed(a.pipes, name) }

  /** Every element names a sub-aggregation of the one before, except that the last may be another allowed one. */
  ghost predicate Reaches(agg: Agg, els: seq<Element>) {
    exists chain :: Descends(agg, els, chain)
                    && (|chain| == |els| + 1 || (|chain| == |els| && AllowedLast(chain[|chain| - 1], els[|els| - 1].name)))
  }

  lemma {:induction false} LeadsExactly(agg: Agg, els: seq<Element>)
    ensures Leads(agg, els) <==> Reaches(agg, els)
    decreases |els|
  {
    if els == [] {
      assert Descends(agg, els, [agg]);
    } else {
      match FirstByName(agg.subs, els[0].name)
      case None => NoSub(agg, els);
      case Some(i) =>
        LeadsExactly(agg.subs[i], els[1..]);
        Below(agg, els, i);
    }
  }

  lemma NoSub(agg: Agg, els: seq<Element>)
    requires els != [] && NotNamed(agg.subs, els[0].name)
    ensures Reaches(agg, els) <==> |els| == 1 && AllowedLast(agg, els[0].name)
  {
    assert Descends(agg, els, [agg]);
    if chain :| Descends(agg, els, chain) && (|chain| == |els| + 1 || (|chain| == |els| && AllowedLast(chain[|chain| - 1], els[|els| - 1].name))) {
      if |chain| > 1 {
        assert IsFirstSub(chain[0], els[0].name, chain[1]);
      }
    }
  }

  lemma Below(agg: Agg, els: seq<Element>, i: nat)
    requires els != [] && NamedFirst(agg.subs, els[0].name, i)
    ensures Reaches(agg, els) <==> Reaches(agg.subs[i], els[1..]) || (|els| == 1 && AllowedLast(agg, els[0].name))
  {
    var sub, rest := agg.subs[i], els[1..];
    if chain :| Descends(agg, els, chain) && (|chain| == |els| + 1 || (|chain| == |els| && AllowedLast(chain[|chain| - 1], els[|els| - 1].name))) {
      if |chain| > 1 {
        var j: nat :| NamedFirst(agg.subs, els[0].name, j) && agg.subs[j] == chain[1];
        assert j == i;
        forall k | 0 < k < |chain[1..]| ensures IsFirstSub(chain[1..][k - 1], rest[k - 1].name, chain[1..][k]) {
          assert IsFirstSub(chain[k], els[k].name, chain[k + 1]);
        }
        assert Descends(sub, rest, chain[1..]);
      }
    }
    if chain :| Descends(sub, rest, chain) && (|chain| == |rest| + 1 || (|chain| == |rest| && AllowedLast(chain[|chain| - 1], rest[|rest| - 1].name))) {
      var longer := [agg] + chain;
      forall k | 0 < k < |longer| ensures IsFirstSub(longer[k - 1], els[k - 1].name, longer[k]) {
        if k > 1 {
          assert IsFirstSub(chain[k - 2], rest[k - 2].name, chain[k - 1]);
        }
      }
      assert Descends(agg, els, longer);
    }
    assert Descends(agg, els, [agg]);
  }

  /** The name that decides where a path leads, when the level looks at it at all. */
  ghost predicate LooksFor(path: string, els: seq<Element>) {
    path != "_count" && path != "_key" && Parse(path) == Some(els) && els != []
  }

  /**
   * A path leads to the last pipeline of its first name when no aggregation of the level has that name.
   * It leads nowhere when neither has the name, or the last aggregation of the name is not followed by
   * what the other elements name.
   */
  lemma TargetExactly(l: Level, path: string, els: seq<Element>)
    requires LooksFor(path, els)
    ensures forall j :: TargetOf(l, path) == Pipeline(j) <==> NotNamed(l.defs, els[0].name) && NamedLast(l.pipes, els[0].name, j)
    ensures TargetOf(l, path) == Aggregation <==> exists a: nat :: NamedLast(l.defs, els[0].name, a) && Reaches(l.defs[a], els[1..])
    ensures TargetOf(l, path) == Missing
       <==> (NotNamed(l.defs, els[0].name) && NotNamed(l.pipes, els[0].name))
            || exists a: nat :: NamedLast(l.defs, els[0].name, a) && !Reaches(l.defs[a], els[1..])
  {
    match LastByName(l.defs, els[0].name)
    case None =>
    case Some(a) => LeadsExactly(l.defs[a], els[1..]);
  }

  lemma IgnoredExactly(l: Level, path: string)
    ensures TargetOf(l, path) == Ignored <==> forall els :: !LooksFor(path, els)
  {
    if TargetOf(l, path) != Ignored {
      assert LooksFor(path, Parse(path).value);
    }
  }

  // ---------------------------------------------------------------- the dependency graph

  /** Pipeline i reads the result of pipeline j. */
  ghost predicate DependsOn(l: Level, i: nat, j: nat) {
    i < |l.pipes| && exists path :: path in l.pipes[i].paths && TargetOf(l, path) == Pipeline(j)
  }

  ghost predicate Chain(l: Level, c: seq<nat>) {
    forall k :: 0 < k < |c| ==> DependsOn(l, c[k - 1], c[k])
  }

  ghost predicate OnCycle(l: Level, p: nat) {
    exists c: seq<nat> :: |c| > 1 && c[0] == p && c[|c| - 1] == p && Chain(l, c)
  }

  ghost predicate Acyclic(l: Level) { forall p :: !OnCycle(l, p) }

  /** Every path leads somewhere. */
  ghost predicate Resolves(l: Level) {
    forall i, path :: 0 <= i < |l.pipes| && path in l.pipes[i].paths ==> TargetOf(l, path) != Missing
  }

  /** What the path reads is there when the pipelines `before` have run. */
  ghost predicate Done(l: Level, path: string, before: seq<nat>) {
    match TargetOf(l, path)
    case Missing => false
    case Pipeline(i) => i in before
    case _ => true
  }

  ghost predicate Ready(l: Level, p: nat, before: seq<nat>)
    requires p < |l.pipes|
  {
    forall path :: path in l.pipes[p].paths ==> Done(l, path, before)
  }

  /** Distinct pipelines, each after everything it reads. */
  ghost predicate InOrder(l: Level, order: seq<nat>) {
    && Distinct(order)
    && forall k :: 0 <= k < |order| ==> order[k] < |l.pipes| && Ready(l, order[k], order[..k])
  }

  ghost predicate Permutation(order: seq<nat>, n: nat) {
    Distinct(order) && forall i :: i in order <==> 0 <= i < n
  }

  // ---------------------------------------------------------------- the walk

  datatype Failure = Cycle(p: nat) | NoAggregation(p: nat, path: string)

  datatype Result = Ok(order: seq<nat>) | Err(failure: Failure)

  /** The failure names something that is really wrong with the level. */
  ghost predicate Real(l: Level, f: Failure) {
    match f
    case Cycle(p) => OnCycle(l, p)
    case NoAggregation(p, path) => p < |l.pipes| && path in l.pipes[p].paths && TargetOf(l, path) == Missing
  }

  /** The order in which the level lists its pipelines. */
  function AsListed(n: nat): (order: seq<nat>)
    ensures |order| == n && forall i :: 0 <= i < n ==> order[i] == i
  {
    seq(n, i => i)
  }

  lemma BackEdge(l: Level, stack: seq<nat>, p: nat)
    requires Chain(l, stack + [p]) && p in stack
    ensures OnCycle(l, p)
  {
    var k :| 0 <= k < |stack| && stack[k] == p;
    var c := (stack + [p])[k..];
    forall i | 0 < i < |c| ensures DependsOn(l, c[i - 1], c[i]) {
      assert DependsOn(l, (stack + [p])[k + i - 1], (stack + [p])[k + i]);
    }
    assert Chain(l, c) && c[0] == p && c[|c| - 1] == p;
  }

  lemma Push(l: Level, stack: seq<nat>, p: nat, dep: nat)
    requires Chain(l, stack + [p]) && DependsOn(l, p, dep)
    ensures Chain(l, stack + [p] + [dep])
  {
    var c := stack + [p] + [dep];
    forall i | 0 < i < |c| ensures DependsOn(l, c[i - 1], c[i]) {
      if i < |c| - 1 {
        assert DependsOn(l, (stack + [p])[i - 1], (stack + [p])[i]);
      }
    }
  }

  lemma Append(l: Level, order: seq<nat>, p: nat)
    requires InOrder(l, order) && p !in order && p < |l.pipes| && Ready(l, p, order)
    ensures InOrder(l, order + [p])
  {
    var longer := order + [p];
    forall k | 0 <= k < |longer| ensures longer[k] < |l.pipes| && Ready(l, longer[k], longer[..k]) {
      assert longer[..k] == order[..k];
      if k == |order| {
        assert order[..k] == order;
      }
    }
  }

  /** The variables that the recursive closure shares with its caller. */
  class Walk {
    const l: Level
    var marked: set<nat>      // being visited
    var unmarked: set<nat>    // not yet ordered
    var ordered: seq<nat>

    ghost predicate Valid()
      reads this
    {
      && marked <= unmarked
      && (forall i :: i in unmarked <==> 0 <= i < |l.pipes| && i !in ordered)
      && InOrder(l, ordered)
    }

    constructor (l: Level)
      ensures Valid() && this.l == l && marked == {} && ordered == []
    {
      this.l := l;
      marked := {};
      unmarked := set i | i in AsListed(|l.pipes|);
      ordered := [];
      new;
      forall i: nat | i < |l.pipes| ensures i in unmarked {
        assert AsListed(|l.pipes|)[i] == i;
      }
    }

    /** The open visits form a chain of dependencies that ends with a user of p. */
    ghost predicate Open(stack: seq<nat>, p: nat)
      reads this
    {
      && Chain(l, stack + [p])
      && forall i :: i in marked <==> i in stack
    }

    method Visit(p: nat, ghost stack: seq<nat>) returns (err: Option<Failure>)
      requires Valid() && p < |l.pipes| && Open(stack, p)
      modifies this
      ensures err == None ==> Valid() && marked == old(marked) && unmarked <= old(unmarked)
      ensures err == None ==> old(ordered) <= ordered && p in ordered
      ensures err.Some? ==> Real(l, err.value)
      decreases unmarked - marked
    {
      if p in marked {
        BackEdge(l, stack, p);
        return Some(Cycle(p));
      }
      if p !in unmarked {
        return None;
      }
      marked := marked + {p};
      var paths := l.pipes[p].paths;
      for k := 0 to |paths|
        invariant Valid() && marked == old(marked) + {p} && unmarked <= old(unmarked) && old(ordered) <= ordered
        invariant forall i :: 0 <= i < k ==> Done(l, paths[i], ordered)
      {
        var target := TargetOf(l, paths[k]);
        match target {
          case Missing =>
            return Some(NoAggregation(p, paths[k]));
          case Pipeline(dep) =>
            assert DependsOn(l, p, dep);
            Push(l, stack, p, dep);
            var e := Visit(dep, stack + [p]);
            if e.Some? {
              return e;
            }
          case _ =>
        }
      }
      Append(l, ordered, p);
      unmarked := unmarked - {p};
      marked := marked - {p};
      ordered := ordered + [p];
      return None;
    }
  }

  /** A cycle would put a pipeline before itself. */
  lemma {:induction false} EarlierInOrder(l: Level, order: seq<nat>, c: seq<nat>, i: nat, k: nat) returns (j: nat)
    requires InOrder(l, order) && Chain(l, c) && k < |c| && i < |order| && order[i] == c[0]
    ensures j < |order| && order[j] == c[k] && (k > 0 ==> j < i)
    decreases k
  {
    if k == 0 {
      j := i;
    } else {
      var m := EarlierInOrder(l, order, c, i, k - 1);
      var path :| path in l.pipes[c[k - 1]].paths && TargetOf(l, path) == Pipeline(c[k]);
      assert Done(l, path, order[..m]);
      j :| 0 <= j < m && order[j] == c[k];
    }
  }

  lemma OrderedIsAcyclic(l: Level, order: seq<nat>)
    requires InOrder(l, order) && Permutation(order, |l.pipes|)
    ensures Acyclic(l)
  {
    forall p | OnCycle(l, p) ensures false {
      var c: seq<nat> :| |c| > 1 && c[0] == p && c[|c| - 1] == p && Chain(l, c);
      assert DependsOn(l, c[0], c[1]);
      assert p in order;
      var i :| 0 <= i < |order| && order[i] == p;
      var j := EarlierInOrder(l, order, c, i, |c| - 1);
    }
  }

  /** In order: every path leads somewhere. */
  lemma OrderedResolves(l: Level, order: seq<nat>)
    requires InOrder(l, order) && Permutation(order, |l.pipes|)
    ensures Resolves(l)
  {
    forall i, path | 0 <= i < |l.pipes| && path in l.pipes[i].paths ensures TargetOf(l, path) != Missing {
      assert i in order;
      var k :| 0 <= k < |order| && order[k] == i;
      assert Done(l, path, order[..k]);
    }
  }

  lemma RealFailure(l: Level, f: Failure)
    requires Real(l, f)
    ensures !(Acyclic(l) && Resolves(l))
  {
  }

  /** A topological order of the pipelines, exactly when there is one and every path leads somewhere. */
  method ResolvePipelineOrder(l: Level) returns (r: Result)
    ensures r.Ok? ==> Permutation(r.order, |l.pipes|) && InOrder(l, r.order)
    ensures r.Err? ==> Real(l, r.failure)
    ensures r.Ok? <==> Acyclic(l) && Resolves(l)
  {
    var walk := new Walk(l);
    for p := 0 to |l.pipes|
      invariant walk.Valid() && walk.l == l && walk.marked == {}
      invariant forall q :: 0 <= q < p ==> q in walk.ordered
    {
      assert walk.Open([], p);
      var err := walk.Visit(p, []);
      if err.Some? {
        RealFailure(l, err.value);
        return Err(err.value);
      }
    }
    OrderedIsAcyclic(l, walk.ordered);
    OrderedResolves(l, walk.ordered);
    return Ok(walk.ordered);
  }

  // ---------------------------------------------------------------- all levels

  function Pick(pipes: seq<Agg>, order: seq<nat>): seq<Agg>
    requires forall i :: i in order ==> i < |pipes|
  {
    seq(|order|, k requires 0 <= k < |order| => assert order[k] in order; pipes[order[k]])
  }

  /** The pipelines of the level in another order, `sorted`: in execution order. */
  ghost predicate LevelArranged(a: Agg, pipes: seq<Agg>, sorted: bool) {
    exists order: seq<nat> ::
      && Permutation(order, |a.pipes|) && pipes == Pick(a.pipes, order)
      && (sorted ==> InOrder(Level(a.subs, a.pipes), order))
  }

  /** What the type of a pipeline finds wrong with it in a level. */
  type Checks = (Agg, Agg) -> bool

  datatype Finding = Unordered(failure: Failure) | Invalid(pipe: Agg)

  ghost predicate LevelSound(a: Agg, fine: Checks) {
    && Acyclic(Level(a.subs, a.pipes)) && Resolves(Level(a.subs, a.pipes))
    && forall i :: 0 <= i < |a.pipes| ==> fine(a, a.pipes[i])
  }

  /** The same aggregations with the pipelines of every level rearranged, `sorted`: into execution order. */
  ghost predicate Arranged(a: Agg, b: Agg, sorted: bool)
    decreases a
  {
    && b.name == a.name && b.paths == a.paths && |b.subs| == |a.subs|
    && LevelArranged(a, b.pipes, sorted)
    && forall i :: 0 <= i < |a.subs| ==> Arranged(a.subs[i], b.subs[i], sorted)
  }

  /** Every level below has an execution order, and all its pipelines are fine there. */
  ghost predicate Sound(a: Agg, fine: Checks)
    decreases a
  {
    && LevelSound(a, fine)
    && forall i :: 0 <= i < |a.subs| ==> Sound(a.subs[i], fine)
  }

  lemma {:induction false} ArrangedAnyway(a: Agg, b: Agg)
    requires Arranged(a, b, true)
    ensures Arranged(a, b, false)
    decreases a
  {
    forall i | 0 <= i < |a.subs| ensures Arranged(a.subs[i], b.subs[i], false) {
      ArrangedAnyway(a.subs[i], b.subs[i]);
    }
  }

  lemma ListedOrder(pipes: seq<Agg>)
    ensures Permutation(AsListed(|pipes|), |pipes|)
    ensures Pick(pipes, AsListed(|pipes|)) == pipes
  {
    forall i | 0 <= i < |pipes| ensures i in AsListed(|pipes|) {
      assert AsListed(|pipes|)[i] == i;
    }
  }

  /** The pipelines of one level in execution order, each of which is validated, or as they were listed when there is none. */
  method OrderLevel(a: Agg, fine: Checks) returns (ordered: seq<Agg>, errs: seq<Finding>)
    ensures LevelArranged(a, ordered, Acyclic(Level(a.subs, a.pipes)) && Resolves(Level(a.subs, a.pipes)))
    ensures errs == [] <==> LevelSound(a, fine)
    ensures forall f :: f in errs ==>
              if f.Unordered? then Real(Level(a.subs, a.pipes), f.failure) else f.pipe in a.pipes && !fine(a, f.pipe)
  {
    var r := ResolvePipelineOrder(Level(a.subs, a.pipes));
    match r {
      case Err(f) =>
        ListedOrder(a.pipes);
        return a.pipes, [Unordered(f)];
      case Ok(order) =>
        ordered, errs := Pick(a.pipes, order), [];
        hide Acyclic, Resolves, InOrder, Permutation;
        for k := 0 to |ordered|
          invariant errs == [] <==> forall i :: 0 <= i < k ==> fine(a, ordered[i])
          invariant forall f :: f in errs ==> f.Invalid? && f.pipe in ordered && !fine(a, f.pipe)
        {
          if !fine(a, ordered[k]) {
            errs := errs + [Invalid(ordered[k])];
          }
        }
        PickedAll(a.pipes, order);
    }
  }

  /** A rearrangement has all pipelines. */
  lemma PickedAll(pipes: seq<Agg>, order: seq<nat>)
    requires Permutation(order, |pipes|)
    ensures forall i :: 0 <= i < |pipes| ==> pipes[i] in Pick(pipes, order)
    ensures forall p :: p in Pick(pipes, order) ==> p in pipes
  {
    forall i | 0 <= i < |pipes| ensures pipes[i] in Pick(pipes, order) {
      assert i in order;
      var k :| 0 <= k < |order| && order[k] == i;
      assert Pick(pipes, order)[k] == pipes[i];
    }
    forall p | p in Pick(pipes, order) ensures p in pipes {
      var k :| 0 <= k < |order| && Pick(pipes, order)[k] == p;
      assert order[k] in order && pipes[order[k]] == p;
    }
  }

  ghost predicate AllSound(subs: seq<Agg>, fine: Checks) { forall i :: 0 <= i < |subs| ==> Sound(subs[i], fine) }

  ghost predicate AllArranged(subs: seq<Agg>, out: seq<Agg>, sorted: bool) {
    |out| == |subs| && forall i :: 0 <= i < |subs| ==> Arranged(subs[i], out[i], sorted)
  }

  lemma AllArrangedAnyway(subs: seq<Agg>, out: seq<Agg>)
    requires AllArranged(subs, out, true)
    ensures AllArranged(subs, out, false)
  {
    forall i | 0 <= i < |subs| ensures Arranged(subs[i], out[i], false) {
      ArrangedAnyway(subs[i], out[i]);
    }
  }

  lemma OneMore(subs: seq<Agg>, out: seq<Agg>, sub: Agg, clean: bool, more: bool)
    requires |out| < |subs| && AllArranged(subs[..|out|], out, clean) && Arranged(subs[|out|], sub, more)
    ensures AllArranged(subs[..|out| + 1], out + [sub], clean && more)
  {
    if clean && !more {
      AllArrangedAnyway(subs[..|out|], out);
    } else if !clean && more {
      ArrangedAnyway(subs[|out|], sub);
    }
    forall i | 0 <= i < |out| + 1 ensures Arranged(subs[..|out| + 1][i], (out + [sub])[i], clean && more) {
      if i < |out| {
        assert Arranged(subs[..|out|][i], out[i], clean && more);
      }
    }
  }

  lemma OneMoreSound(subs: seq<Agg>, fine: Checks, i: nat)
    requires i < |subs|
    ensures AllSound(subs[..i + 1], fine) <==> AllSound(subs[..i], fine) && Sound(subs[i], fine)
  {
    if AllSound(subs[..i + 1], fine) {
      forall k | 0 <= k < i ensures Sound(subs[..i][k], fine) {
        assert Sound(subs[..i + 1][k], fine);
      }
      assert Sound(subs[..i + 1][i], fine);
    }
  }

  /**
   * validateAggLevel on the definitions under a parent (a nameless one at the root): nothing is found
   * exactly when every level can be ordered and every pipeline is fine in its level, and then every
   * level is in order. A level that cannot be ordered keeps its pipelines as they were listed.
   */
  method ValidateAggLevel(a: Agg, fine: Checks) returns (b: Agg, errs: seq<Finding>)
    ensures Arranged(a, b, errs == [])
    ensures errs == [] <==> Sound(a, fine)
    decreases a
  {
    var ordered, findings := OrderLevel(a, fine);
    hide LevelSound;
    errs := findings;
    var subs: seq<Agg> := [];
    for i := 0 to |a.subs|
      invariant |subs| == i
      invariant errs == [] <==> LevelSound(a, fine) && AllSound(a.subs[..i], fine)
      invariant AllArranged(a.subs[..i], subs, errs == [])
    {
      var sub, more := ValidateAggLevel(a.subs[i], fine);
      OneMore(a.subs, subs, sub, errs == [], more == []);
      OneMoreSound(a.subs, fine, i);
      errs := errs + more;
      subs := subs + [sub];
    }
    assert a.subs[..|a.subs|] == a.subs;
    Weaker(a, fine, ordered, errs == []);
    b := Agg(a.name, a.paths, subs, ordered);
  }

  lemma Weaker(a: Agg, fine: Checks, pipes: seq<Agg>, clean: bool)
    requires LevelArranged(a, pipes, Acyclic(Level(a.subs, a.pipes)) && Resolves(Level(a.subs, a.pipes)))
    requires clean ==> LevelSound(a, fine)
    ensures LevelArranged(a, pipes, clean)
  {
    if !clean {
      WeakerLevel(a, pipes, Acyclic(Level(a.subs, a.pipes)) && Resolves(Level(a.subs, a.pipes)));
    }
  }

  lemma WeakerLevel(a: Agg, pipes: seq<Agg>, sorted: bool)
    requires LevelArranged(a, pipes, sorted)
    ensures LevelArranged(a, pipes, false)
  {
  }
}

/**
 * The workers of delete, update and reindex by query, internal/engine/byquery.go: hits are
 * processed in batches, up to a number of documents, alone or in slices.
 *
 * A hit is its position among the hits of a worker. What a write returns is any function of the
 * number of the write and of the hit.
 */
module ByScroll {
  import opened Options

  datatype Outcome = Created | Updated | Deleted | Noop | Conflict | Failure

  type Writes = (nat, nat) -> Outcome

  /** bulkByScrollStatus, the failed hits, and the hits that were visited. */
  datatype Tally = Tally(created: nat, updated: nat, deleted: nat, noops: nat, conflicts: nat, batches: nat,
                         failures: seq<nat>, visited: seq<nat>)
  {
    function Successes(): nat { created + updated + deleted }
  }

  const NOTHING := Tally(0, 0, 0, 0, 0, 0, [], [])

  const DEFAULT_BATCH := 1000

  /** size is positive; maxDocs is None without a limit. */
  datatype Request = Request(size: nat, maxDocs: Option<nat>, proceed: bool)

  ghost predicate Valid(r: Request) { r.size > 0 }

  // ---------------------------------------------------------------- one worker as a function

  function Visit(r: Request, t: Tally, pos: nat, write: Writes): Tally {
    var seen := t.(visited := t.visited + [pos]);
    match write(|t.visited|, pos)
    case Created => seen.(created := t.created + 1)
    case Updated => seen.(updated := t.updated + 1)
    case Deleted => seen.(deleted := t.deleted + 1)
    case Noop => seen.(noops := t.noops + 1)
    case Failure => seen.(failures := t.failures + [pos])
    case Conflict =>
      if r.proceed then seen.(conflicts := t.conflicts + 1)
      else seen.(conflicts := t.conflicts + 1, failures := t.failures + [pos])
  }

  function VisitRange(r: Request, t: Tally, from: nat, upto: nat, write: Writes): (out: Tally)
    requires from <= upto
    decreases upto
  {
    if from == upto then t else Visit(r, VisitRange(r, t, from, upto - 1, write), upto - 1, write)
  }

  /** Where the batch that starts at `start` ends. */
  function BatchEnd(r: Request, n: nat, start: nat, successes: nat): (end: nat)
    requires start <= n && (r.maxDocs.Some? ==> successes <= r.maxDocs.value)
    ensures start <= end <= n && end <= start + r.size
    ensures r.maxDocs.Some? ==> end - start <= r.maxDocs.value - successes
  {
    var end := if start + r.size < n then start + r.size else n;
    if r.maxDocs.Some? && r.maxDocs.value - successes < end - start then start + (r.maxDocs.value - successes) else end
  }

  predicate Enough(r: Request, t: Tally) { r.maxDocs.Some? && t.Successes() >= r.maxDocs.value }

  /** The batches from `start` on. */
  function Worker(r: Request, n: nat, start: nat, t: Tally, write: Writes): (out: Tally)
    requires r.size > 0
    decreases if start < n then n - start else 0
  {
    if start >= n || Enough(r, t) then t
    else
      var t' := VisitRange(r, t.(batches := t.batches + 1), start, BatchEnd(r, n, start, t.Successes()), write);
      if t'.failures != [] then t' else Worker(r, n, start + r.size, t', write)
  }

  /** runWorker over n hits. */
  method RunWorker(batchSize: int, maxDocs: Option<nat>, proceed: bool, n: nat, write: Writes) returns (total: nat, t: Tally)
    ensures t == Worker(Request(if batchSize <= 0 then DEFAULT_BATCH else batchSize, maxDocs, proceed), n, 0, NOTHING, write)
    ensures total == if maxDocs.Some? && maxDocs.value < n then maxDocs.value else n
    ensures Reported(proceed, t, write)
  {
    hide Visit, VisitRange, Worker, Reported, Accounted;
    total := n;
    if maxDocs.Some? && maxDocs.value < total {
      total := maxDocs.value;
    }
    var size := if batchSize <= 0 then DEFAULT_BATCH else batchSize;
    var r := Request(size, maxDocs, proceed);
    t := NOTHING;
    NothingAccounted(r);
    NothingReported(proceed, write);
    WorkerReported(r, n, 0, NOTHING, write);
    var start := 0;
    while start < n
      invariant t.failures == [] && Worker(r, n, 0, NOTHING, write) == Worker(r, n, start, t, write)
      decreases n - start
    {
      WorkerStep(r, n, start, t, write);
      if maxDocs.Some? && t.Successes() >= maxDocs.value {
        break;
      }
      var end := if start + size < n then start + size else n;
      if maxDocs.Some? && maxDocs.value - t.Successes() < end - start {
        end := start + (maxDocs.value - t.Successes());
      }
      ghost var before := t;
      t := t.(batches := t.batches + 1);
      ghost var opening := t;
      RangeStep(r, opening, start, start, write);
      for pos := start to end
        invariant t == VisitRange(r, opening, start, pos, write)
      {
        RangeStep(r, opening, start, pos + 1, write);
        t := Visit(r, t, pos, write);
      }
      assert end == BatchEnd(r, n, start, before.Successes());
      if |t.failures| > 0 {
        return;
      }
      start := start + size;
    }
    WorkerEnds(r, n, start, t, write);
  }

  lemma RangeStep(r: Request, t: Tally, from: nat, end: nat, write: Writes)
    requires from <= end
    ensures VisitRange(r, t, from, end, write)
         == if from == end then t else Visit(r, VisitRange(r, t, from, end - 1, write), end - 1, write)
  {
    hide Visit;
  }

  lemma WorkerEnds(r: Request, n: nat, start: nat, t: Tally, write: Writes)
    requires r.size > 0 && (start >= n || Enough(r, t))
    ensures Worker(r, n, start, t, write) == t
  {
    hide Visit, VisitRange;
  }

  lemma WorkerStep(r: Request, n: nat, start: nat, t: Tally, write: Writes)
    requires r.size > 0 && start < n
    ensures !Enough(r, t) ==>
              var t' := VisitRange(r, t.(batches := t.batches + 1), start, BatchEnd(r, n, start, t.Successes()), write);
              Worker(r, n, start, t, write) == if t'.failures != [] then t' else Worker(r, n, start + r.size, t', write)
  {
    hide Visit, VisitRange;
  }

  // ---------------------------------------------------------------- what a worker does

  ghost predicate Increasing(s: seq<nat>) { forall i, j :: 0 <= i < j < |s| ==> s[i] < s[j] }

  /** Conflicts that do not fail the request. */
  function Tolerated(r: Request, t: Tally): nat { if r.proceed then t.conflicts else 0 }

  /** Every visited hit is a success, a noop, a tolerated conflict or a failure, and hits are visited in order. */
  ghost predicate Accounted(r: Request, t: Tally, upTo: nat) {
    && |t.visited| == t.Successes() + t.noops + Tolerated(r, t) + |t.failures|
    && Increasing(t.visited) && (forall i :: 0 <= i < |t.visited| ==> t.visited[i] < upTo)
    && (forall f :: f in t.failures ==> f in t.visited)
  }

  lemma {:induction false} VisitAccounted(r: Request, t: Tally, pos: nat, write: Writes)
    requires Accounted(r, t, pos)
    ensures Accounted(r, Visit(r, t, pos, write), pos + 1)
    ensures Visit(r, t, pos, write).Successes() <= t.Successes() + 1
  {
    var out := Visit(r, t, pos, write);
    assert out.visited == t.visited + [pos];
    assert Increasing(out.visited);
    assert forall f :: f in out.failures ==> f in t.failures || f == pos;
    hide Visit, Increasing;
  }

  lemma {:induction false} RangeAccounted(r: Request, t: Tally, from: nat, upto: nat, write: Writes)
    requires from <= upto && Accounted(r, t, from)
    ensures Accounted(r, VisitRange(r, t, from, upto, write), upto)
    ensures VisitRange(r, t, from, upto, write).Successes() <= t.Successes() + (upto - from)
    decreases upto
  {
    hide Visit, Accounted;
    if from < upto {
      RangeAccounted(r, t, from, upto - 1, write);
      VisitAccounted(r, VisitRange(r, t, from, upto - 1, write), upto - 1, write);
    }
  }

  lemma AccountedLater(r: Request, t: Tally, a: nat, b: nat)
    requires a <= b && Accounted(r, t, a)
    ensures Accounted(r, t, b)
  {
  }

  lemma {:induction false} WorkerFrom(r: Request, n: nat, start: nat, t: Tally, write: Writes)
    requires Valid(r) && Accounted(r, t, start) && (r.maxDocs.Some? ==> t.Successes() <= r.maxDocs.value)
    ensures var out := Worker(r, n, start, t, write);
            && Accounted(r, out, if start < n then n else start)
            && (r.maxDocs.Some? ==> out.Successes() <= r.maxDocs.value)
    decreases if start < n then n - start else 0
  {
    hide Visit, VisitRange, Worker, Accounted;
    if start >= n || Enough(r, t) {
      WorkerEnds(r, n, start, t, write);
      if start < n {
        AccountedLater(r, t, start, n);
      }
    } else {
      WorkerStep(r, n, start, t, write);
      var end := BatchEnd(r, n, start, t.Successes());
      var t' := VisitRange(r, t.(batches := t.batches + 1), start, end, write);
      NextBatch(r, t, start);
      RangeAccounted(r, t.(batches := t.batches + 1), start, end, write);
      AccountedLater(r, t', end, n);
      if t'.failures == [] {
        AccountedLater(r, t', end, start + r.size);
        WorkerFrom(r, n, start + r.size, t', write);
        if start + r.size >= n {
          WorkerEnds(r, n, start + r.size, t', write);
        }
      }
    }
  }

  lemma NextBatch(r: Request, t: Tally, upTo: nat)
    requires Accounted(r, t, upTo)
    ensures Accounted(r, t.(batches := t.batches + 1), upTo)
  {
  }

  /** Whatever the writes return: hits are visited in order and at most once, each is accounted for once, and max_docs bounds the successes. */
  lemma WorkerAccounts(r: Request, n: nat, write: Writes)
    requires Valid(r)
    ensures var t := Worker(r, n, 0, NOTHING, write);
            Accounted(r, t, n)
            && (r.maxDocs.Some? ==> t.Successes() <= r.maxDocs.value)
  {
    hide Worker, Visit, Accounted;
    NothingAccounted(r);
    WorkerFrom(r, n, 0, NOTHING, write);
  }

  lemma {:induction false} NothingAccounted(r: Request)
    ensures Accounted(r, NOTHING, 0)
  {
    hide Accounted;
    EmptyAccounted(r, NOTHING);
  }

  lemma {:induction false} EmptyAccounted(r: Request, t: Tally)
    requires t.visited == [] == t.failures && t.created == t.updated == t.deleted == t.noops == t.conflicts == 0
    ensures Accounted(r, t, 0)
  {
  }

  // ---------------------------------------------------------------- what the counters count

  /** The visits whose write had the outcome; the k-th write was for the k-th visited hit. */
  ghost function With(visited: seq<nat>, write: Writes, o: Outcome): set<nat> {
    set k: nat | k < |visited| && write(k, visited[k]) == o
  }

  /** The hit p was visited, and its write failed or had a conflict that is not tolerated. */
  ghost predicate FailedAt(proceed: bool, visited: seq<nat>, write: Writes, k: nat, p: nat) {
    k < |visited| && visited[k] == p && (write(k, p) == Failure || (write(k, p) == Conflict && !proceed))
  }

  /** Each counter is the number of visits with its outcome. */
  ghost predicate Counted(t: Tally, write: Writes) {
    && t.created == |With(t.visited, write, Created)| && t.updated == |With(t.visited, write, Updated)|
    && t.deleted == |With(t.visited, write, Deleted)| && t.noops == |With(t.visited, write, Noop)|
    && t.conflicts == |With(t.visited, write, Conflict)|
  }

  ghost predicate SomeFailedAt(proceed: bool, visited: seq<nat>, write: Writes, p: nat) {
    exists k: nat :: FailedAt(proceed, visited, write, k, p)
  }

  /** The failures are the visited hits that failed, in the order of the visits. */
  ghost predicate Listed(proceed: bool, t: Tally, write: Writes) {
    Increasing(t.visited) && Increasing(t.failures) && forall p :: p in t.failures <==> SomeFailedAt(proceed, t.visited, write, p)
  }

  ghost predicate Reported(proceed: bool, t: Tally, write: Writes) { Counted(t, write) && Listed(proceed, t, write) }

  lemma WithNext(visited: seq<nat>, pos: nat, write: Writes, o: Outcome)
    ensures |With(visited + [pos], write, o)| == |With(visited, write, o)| + if write(|visited|, pos) == o then 1 else 0
  {
    var next := visited + [pos];
    assert next[|visited|] == pos;
    forall k: nat ensures k in With(next, write, o) <==> k in With(visited, write, o) || (k == |visited| && write(k, pos) == o) {
      assert k < |visited| ==> next[k] == visited[k];
    }
    if write(|visited|, pos) == o {
      assert With(next, write, o) == With(visited, write, o) + {|visited|};
    } else {
      assert With(next, write, o) == With(visited, write, o);
    }
  }

  lemma FailedNext(proceed: bool, visited: seq<nat>, pos: nat, write: Writes, p: nat)
    ensures SomeFailedAt(proceed, visited + [pos], write, p)
       <==> SomeFailedAt(proceed, visited, write, p) || FailedAt(proceed, visited + [pos], write, |visited|, p)
  {
    if k: nat :| FailedAt(proceed, visited, write, k, p) {
      assert FailedAt(proceed, visited + [pos], write, k, p);
    }
    if k: nat :| FailedAt(proceed, visited + [pos], write, k, p) {
      assert k < |visited| ==> FailedAt(proceed, visited, write, k, p);
    }
  }

  lemma VisitCounted(r: Request, t: Tally, pos: nat, write: Writes)
    requires Counted(t, write)
    ensures Counted(Visit(r, t, pos, write), write)
  {
    WithNext(t.visited, pos, write, Created);
    WithNext(t.visited, pos, write, Updated);
    WithNext(t.visited, pos, write, Deleted);
    WithNext(t.visited, pos, write, Noop);
    WithNext(t.visited, pos, write, Conflict);
    hide With;
  }

  lemma {:induction false} VisitListed(r: Request, t: Tally, pos: nat, write: Writes)
    requires Listed(r.proceed, t, write) && Accounted(r, t, pos)
    ensures Listed(r.proceed, Visit(r, t, pos, write), write)
  {
    var out := Visit(r, t, pos, write);
    assert out.visited == t.visited + [pos] && out.visited[|t.visited|] == pos;
    forall p ensures p in out.failures <==> SomeFailedAt(r.proceed, out.visited, write, p) {
      FailedNext(r.proceed, t.visited, pos, write, p);
    }
    assert forall i :: 0 <= i < |t.failures| ==> t.failures[i] in t.visited;
  }

  lemma {:induction false} VisitReported(r: Request, t: Tally, pos: nat, write: Writes)
    requires Reported(r.proceed, t, write) && Accounted(r, t, pos)
    ensures Reported(r.proceed, Visit(r, t, pos, write), write)
  {
    hide Visit, Counted, Listed, Accounted;
    VisitCounted(r, t, pos, write);
    VisitListed(r, t, pos, write);
  }

  lemma {:induction false} RangeReported(r: Request, t: Tally, from: nat, upto: nat, write: Writes)
    requires from <= upto && Accounted(r, t, from) && Reported(r.proceed, t, write)
    ensures Reported(r.proceed, VisitRange(r, t, from, upto, write), write)
    decreases upto
  {
    hide Visit, Accounted, Reported;
    if from < upto {
      RangeAccounted(r, t, from, upto - 1, write);
      RangeReported(r, t, from, upto - 1, write);
      VisitReported(r, VisitRange(r, t, from, upto - 1, write), upto - 1, write);
    }
  }

  lemma {:induction false} WorkerReported(r: Request, n: nat, start: nat, t: Tally, write: Writes)
    requires Valid(r) && Accounted(r, t, start) && Reported(r.proceed, t, write) && (r.maxDocs.Some? ==> t.Successes() <= r.maxDocs.value)
    ensures Reported(r.proceed, Worker(r, n, start, t, write), write)
    decreases if start < n then n - start else 0
  {
    hide Visit, VisitRange, Worker, Accounted, Reported;
    if start >= n || Enough(r, t) {
      WorkerEnds(r, n, start, t, write);
    } else {
      WorkerStep(r, n, start, t, write);
      var end := BatchEnd(r, n, start, t.Successes());
      var t' := VisitRange(r, t.(batches := t.batches + 1), start, end, write);
      NextBatch(r, t, start);
      NextBatchReported(r.proceed, t, write);
      RangeAccounted(r, t.(batches := t.batches + 1), start, end, write);
      RangeReported(r, t.(batches := t.batches + 1), start, end, write);
      if t'.failures == [] {
        AccountedLater(r, t', end, start + r.size);
        WorkerReported(r, n, start + r.size, t', write);
      }
    }
  }

  lemma NextBatchReported(proceed: bool, t: Tally, write: Writes)
    requires Reported(proceed, t, write)
    ensures Reported(proceed, t.(batches := t.batches + 1), write)
  {
  }

  lemma NothingReported(proceed: bool, write: Writes)
    ensures Reported(proceed, NOTHING, write)
  {
  }

  // ---------------------------------------------------------------- which hits are reached

  ghost predicate Prefix(s: seq<nat>) { forall i :: 0 <= i < |s| ==> s[i] == i }

  /** A write that neither succeeds nor stops the worker. */
  predicate Wasted(r: Request, o: Outcome) { o == Noop || (o == Conflict && r.proceed) }

  predicate Success(o: Outcome) { o == Created || o == Updated || o == Deleted }

  /** A write that stops the worker after its batch. */
  predicate Fails(r: Request, o: Outcome) { !Success(o) && !Wasted(r, o) }

  /** The successes among the first p writes, when they are those of the first p hits. */
  function Done(write: Writes, p: nat): (k: nat)
    ensures k <= p
  {
    if p == 0 then 0 else Done(write, p - 1) + if Success(write(p - 1, p - 1)) then 1 else 0
  }

  ghost predicate NoneFails(r: Request, write: Writes, from: nat, upto: int) {
    forall i: nat :: from <= i < upto ==> !Fails(r, write(i, i))
  }

  ghost predicate SomeWasted(r: Request, write: Writes, from: nat, upto: int) {
    exists i: nat :: from <= i < upto && Wasted(r, write(i, i))
  }

  /** max_docs leaves room for less than the batch that starts at s, when all hits before it were visited. */
  predicate Cut(r: Request, n: nat, write: Writes, s: nat) {
    r.maxDocs.Some? && r.maxDocs.value - Done(write, s) < (if s + r.size < n then r.size else n - s)
  }

  /** The start of the first batch that is cut short, of those from `start` on. */
  function FirstCut(r: Request, n: nat, write: Writes, start: nat): (s: Option<nat>)
    requires r.size > 0
    ensures s.Some? ==> start <= s.value < n && Cut(r, n, write, s.value)
    decreases if start < n then n - start else 0
  {
    if start >= n then None else if Cut(r, n, write, start) then Some(start) else FirstCut(r, n, write, start + r.size)
  }

  /**
   * No write up to the end of the first batch that max_docs cuts short fails, and one in that batch is
   * a noop or a tolerated conflict: max_docs is not reached when the batch ends early.
   */
  ghost predicate EndsEarly(r: Request, n: nat, write: Writes)
    requires r.size > 0
  {
    var s := FirstCut(r, n, write, 0);
    s.Some? && EarlyAt(r, write, s.value)
  }

  ghost predicate EarlyAt(r: Request, write: Writes, s: nat)
    requires r.maxDocs.Some?
  {
    var end := s + (r.maxDocs.value - Done(write, s));
    NoneFails(r, write, 0, end) && SomeWasted(r, write, s, end)
  }

  /** There are hits after that batch. */
  ghost predicate MoreFollow(r: Request, n: nat, write: Writes)
    requires r.size > 0
  {
    var s := FirstCut(r, n, write, 0);
    s.Some? && s.value + r.size < n
  }

  /** The worker has visited exactly the hits before `start`, and none of them failed. */
  ghost predicate Upto(r: Request, t: Tally, start: nat, write: Writes) {
    && Prefix(t.visited) && |t.visited| == start && t.Successes() == Done(write, start)
    && (t.failures == [] <==> NoneFails(r, write, 0, start))
  }

  lemma {:induction false} VisitUpto(r: Request, t: Tally, pos: nat, write: Writes)
    requires Upto(r, t, pos, write)
    ensures Upto(r, Visit(r, t, pos, write), pos + 1, write)
  {
    NoneFailsNext(r, write, pos);
  }

  lemma NoneFailsNext(r: Request, write: Writes, p: nat)
    ensures NoneFails(r, write, 0, p + 1) <==> NoneFails(r, write, 0, p) && !Fails(r, write(p, p))
  {
  }

  lemma {:induction false} RangeUpto(r: Request, t: Tally, from: nat, upto: nat, write: Writes)
    requires from <= upto && Upto(r, t, from, write)
    ensures Upto(r, VisitRange(r, t, from, upto, write), upto, write)
    decreases upto
  {
    hide Visit, Upto;
    if from < upto {
      RangeUpto(r, t, from, upto - 1, write);
      VisitUpto(r, VisitRange(r, t, from, upto - 1, write), upto - 1, write);
    }
  }

  /** Successes are one less for every wasted write of a range without failures. */
  lemma {:induction false} DoneBetween(r: Request, write: Writes, from: nat, upto: nat)
    requires from <= upto && NoneFails(r, write, from, upto)
    ensures Done(write, upto) <= Done(write, from) + (upto - from)
    ensures Done(write, upto) == Done(write, from) + (upto - from) <==> !SomeWasted(r, write, from, upto)
    decreases upto
  {
    if from < upto {
      DoneBetween(r, write, from, upto - 1);
      var last := upto - 1;
      assert !Fails(r, write(last, last));
      if Wasted(r, write(last, last)) {
        assert SomeWasted(r, write, from, upto);
      } else if i: nat :| from <= i < upto && Wasted(r, write(i, i)) {
        assert i < last && SomeWasted(r, write, from, last);
      }
    }
  }

  lemma {:induction false} RangeVisits(r: Request, t: Tally, from: nat, upto: nat, write: Writes)
    requires from <= upto
    ensures t.visited <= VisitRange(r, t, from, upto, write).visited
    ensures from < upto ==> t.visited + [from] <= VisitRange(r, t, from, upto, write).visited
    decreases upto
  {
    if from < upto {
      RangeVisits(r, t, from, upto - 1, write);
    }
  }

  /** The visited hits stay visited, and a worker that goes on visits the first hit of its batch next. */
  lemma {:induction false} WorkerVisits(r: Request, n: nat, start: nat, t: Tally, write: Writes)
    requires Valid(r) && (r.maxDocs.Some? ==> t.Successes() <= r.maxDocs.value)
    ensures t.visited <= Worker(r, n, start, t, write).visited
    ensures start < n && !Enough(r, t) ==> t.visited + [start] <= Worker(r, n, start, t, write).visited
    decreases if start < n then n - start else 0
  {
    hide Visit, VisitRange, Worker;
    if start >= n || Enough(r, t) {
      WorkerEnds(r, n, start, t, write);
    } else {
      WorkerStep(r, n, start, t, write);
      var end := BatchEnd(r, n, start, t.Successes());
      var begun := t.(batches := t.batches + 1);
      RangeVisits(r, begun, start, end, write);
      RangeSuccesses(r, begun, start, end, write);
      var t' := VisitRange(r, begun, start, end, write);
      if t'.failures == [] {
        WorkerVisits(r, n, start + r.size, t', write);
      }
    }
  }

  lemma {:induction false} RangeSuccesses(r: Request, t: Tally, from: nat, upto: nat, write: Writes)
    requires from <= upto
    ensures VisitRange(r, t, from, upto, write).Successes() <= t.Successes() + (upto - from)
    decreases upto
  {
    if from < upto {
      RangeSuccesses(r, t, from, upto - 1, write);
    }
  }

  /** What the visits mean, from a batch on before which nothing was cut short. */
  ghost predicate VisitsExact(r: Request, n: nat, write: Writes, start: nat, out: Tally)
    requires r.size > 0
  {
    var s := FirstCut(r, n, write, start);
    var early := s.Some? && EarlyAt(r, write, s.value);
    && (Prefix(out.visited) <==> !(early && s.value + r.size < n))
    && (early && s.value + r.size >= n ==> out.failures == [] && |out.visited| < n && !Enough(r, out))
    && (!early && out.failures == [] ==> |out.visited| == n || Enough(r, out))
  }

  lemma {:induction false} VisitsFrom(r: Request, n: nat, start: nat, t: Tally, write: Writes)
    requires Valid(r) && start <= n && Upto(r, t, start, write) && t.failures == []
    requires r.maxDocs.Some? ==> t.Successes() <= r.maxDocs.value
    ensures VisitsExact(r, n, write, start, Worker(r, n, start, t, write))
    decreases n - start
  {
    hide Visit, VisitRange, Worker, FirstCut, EarlyAt;
    if start >= n {
      WorkerEnds(r, n, start, t, write);
      FirstCutStep(r, n, write, start);
    } else if Enough(r, t) {
      WorkerEnds(r, n, start, t, write);
      FirstCutStep(r, n, write, start);
      NotEarly(r, write, start);
    } else {
      FirstCutStep(r, n, write, start);
      WorkerStep(r, n, start, t, write);
      var end := BatchEnd(r, n, start, t.Successes());
      var begun := t.(batches := t.batches + 1);
      RangeUpto(r, begun, start, end, write);
      RangeSuccesses(r, begun, start, end, write);
      var t' := VisitRange(r, begun, start, end, write);
      if Cut(r, n, write, start) {
        CutBatch(r, n, start, t', write);
      } else if t'.failures != [] {
        FailedBefore(r, n, start, end, write);
      } else if end == n {
        WorkerEnds(r, n, start + r.size, t', write);
        FirstCutStep(r, n, write, start + r.size);
      } else {
        VisitsFrom(r, n, end, t', write);
      }
    }
  }

  lemma FirstCutStep(r: Request, n: nat, write: Writes, start: nat)
    requires r.size > 0
    ensures FirstCut(r, n, write, start)
         == if start >= n then None else if Cut(r, n, write, start) then Some(start) else FirstCut(r, n, write, start + r.size)
  {
  }

  lemma NotEarly(r: Request, write: Writes, s: nat)
    requires r.maxDocs.Some? && Done(write, s) >= r.maxDocs.value
    ensures !EarlyAt(r, write, s)
  {
  }

  /** A write that fails before a batch: the worker does not get there. */
  lemma FailedBefore(r: Request, n: nat, start: nat, end: nat, write: Writes)
    requires r.size > 0 && end <= start + r.size && !NoneFails(r, write, 0, end)
    ensures var s := FirstCut(r, n, write, start + r.size); s.Some? ==> !EarlyAt(r, write, s.value)
  {
    var s := FirstCut(r, n, write, start + r.size);
    if s.Some? && Done(write, s.value) <= r.maxDocs.value {
      FailedEarlier(r, write, end, s.value + (r.maxDocs.value - Done(write, s.value)));
    }
  }

  lemma FailedEarlier(r: Request, write: Writes, p: nat, q: nat)
    requires p <= q && !NoneFails(r, write, 0, p)
    ensures !NoneFails(r, write, 0, q)
  {
  }

  /** The batch that is cut short, and what comes after it. */
  lemma {:induction false} CutBatch(r: Request, n: nat, start: nat, t': Tally, write: Writes)
    requires Valid(r) && start < n && Cut(r, n, write, start) && Done(write, start) < r.maxDocs.value
    requires var end := start + (r.maxDocs.value - Done(write, start)); Upto(r, t', end, write)
    ensures VisitsExact(r, n, write, start, if t'.failures != [] then t' else Worker(r, n, start + r.size, t', write))
  {
    hide Visit, VisitRange, Worker, FirstCut;
    FirstCutStep(r, n, write, start);
    var end := start + (r.maxDocs.value - Done(write, start));
    if t'.failures == [] {
      DoneBetween(r, write, start, end);
      if start + r.size >= n || !SomeWasted(r, write, start, end) {
        WorkerEnds(r, n, start + r.size, t', write);
      } else {
        WorkerVisits(r, n, start + r.size, t', write);
        assert Worker(r, n, start + r.size, t', write).visited[end] == start + r.size;
      }
    }
  }

  lemma NothingUpto(r: Request, write: Writes)
    ensures Upto(r, NOTHING, 0, write)
  {
    assert Done(write, 0) == 0;
  }

  lemma NothingDone(r: Request)
    ensures NOTHING.failures == []
    ensures r.maxDocs.Some? ==> NOTHING.Successes() <= r.maxDocs.value
  {
  }

  /** The hits are visited without a gap exactly when no batch before the last ends early. */
  lemma {:induction false} SkipsExactly(r: Request, n: nat, write: Writes)
    requires Valid(r)
    ensures Prefix(Worker(r, n, 0, NOTHING, write).visited) <==> !(EndsEarly(r, n, write) && MoreFollow(r, n, write))
  {
    hide Worker, FirstCut, EarlyAt, Upto;
    NothingUpto(r, write);
    NothingDone(r);
    VisitsFrom(r, n, 0, NOTHING, write);
  }

  /**
   * A worker that skips nothing and meets no failure stops before max_docs and before the last hit
   * exactly when the last batch ends early.
   */
  lemma {:induction false} StopsShortExactly(r: Request, n: nat, write: Writes)
    requires Valid(r)
    ensures var t := Worker(r, n, 0, NOTHING, write);
            (Prefix(t.visited) && t.failures == [] && |t.visited| < n && !Enough(r, t))
            <==> EndsEarly(r, n, write) && !MoreFollow(r, n, write)
  {
    hide Worker, FirstCut, EarlyAt, Upto;
    NothingUpto(r, write);
    NothingDone(r);
    VisitsFrom(r, n, 0, NOTHING, write);
  }

  /** Without max_docs no hit is skipped, and all are visited when nothing fails. */
  lemma {:induction false} UnlimitedVisitsAll(r: Request, n: nat, write: Writes)
    requires Valid(r) && r.maxDocs == None
    ensures var t := Worker(r, n, 0, NOTHING, write);
            Prefix(t.visited) && (t.failures == [] ==> |t.visited| == n)
  {
    hide Worker, FirstCut, EarlyAt, Upto;
    NothingUpto(r, write);
    NothingDone(r);
    VisitsFrom(r, n, 0, NOTHING, write);
  }

  ghost predicate NoneWasted(r: Request, n: nat, write: Writes) {
    forall i: nat :: i < n ==> !Wasted(r, write(i, i))
  }

  /** With max_docs no hit is skipped as long as every write that is made succeeds or fails. */
  lemma {:induction false} LimitedVisitsFirst(r: Request, n: nat, write: Writes)
    requires Valid(r) && r.maxDocs.Some? && NoneWasted(r, n, write)
    ensures var t := Worker(r, n, 0, NOTHING, write);
            Prefix(t.visited) && (t.failures == [] ==> |t.visited| == n || Enough(r, t))
  {
    hide Worker, FirstCut, EarlyAt, Upto, NoneWasted;
    NothingUpto(r, write);
    NothingDone(r);
    NotEarlyAnywhere(r, n, write, 0);
    VisitsFrom(r, n, 0, NOTHING, write);
  }

  lemma NotEarlyAnywhere(r: Request, n: nat, write: Writes, start: nat)
    requires Valid(r) && r.maxDocs.Some? && NoneWasted(r, n, write)
    ensures var s := FirstCut(r, n, write, start); s.Some? ==> !EarlyAt(r, write, s.value)
  {
  }

  lemma {:induction false} RangeBatches(r: Request, t: Tally, from: nat, upto: nat, write: Writes)
    requires from <= upto
    ensures VisitRange(r, t, from, upto, write).batches == t.batches
    decreases upto
  {
    if from < upto {
      RangeBatches(r, t, from, upto - 1, write);
    }
  }

  lemma {:induction false} BatchesFrom(r: Request, n: nat, start: nat, t: Tally, write: Writes)
    requires Valid(r) && r.maxDocs == None && t.batches * r.size == start && (start > 0 ==> start < n + r.size)
    ensures var out := Worker(r, n, start, t, write);
            out.failures == [] || start >= n ==> n <= out.batches * r.size < n + r.size
    decreases if start < n then n - start else 0
  {
    hide Visit, VisitRange, Worker;
    if start >= n {
      WorkerEnds(r, n, start, t, write);
    } else {
      WorkerStep(r, n, start, t, write);
      var begun := t.(batches := t.batches + 1);
      var end := BatchEnd(r, n, start, t.Successes());
      RangeBatches(r, begun, start, end, write);
      var t' := VisitRange(r, begun, start, end, write);
      assert (t.batches + 1) * r.size == t.batches * r.size + r.size;
      if t'.failures == [] {
        BatchesFrom(r, n, start + r.size, t', write);
      }
    }
  }

  /** Without max_docs and without failures there are just as many batches as the hits fill. */
  lemma {:induction false} BatchesFill(r: Request, n: nat, write: Writes)
    requires Valid(r) && r.maxDocs == None && Worker(r, n, 0, NOTHING, write).failures == []
    ensures var t := Worker(r, n, 0, NOTHING, write); n <= t.batches * r.size < n + r.size
  {
    hide Worker;
    BatchesFrom(r, n, 0, NOTHING, write);
  }

  /** The write of the first hit changes nothing, the others succeed. */
  function NoopFirst(): Writes { (k, p) => if p == 0 then Noop else Updated }

  /** A noop in a batch that max_docs cut short: the rest of that batch is skipped, and the next batch is visited. */
  lemma SkipHappens(r: Request, n: nat, t: Tally)
    requires r == Request(2, Some(1), true) && n == 3 && t.Successes() == 0 && t.failures == [] && t.visited == []
    ensures Worker(r, n, 0, t, NoopFirst()).visited == [0, 2]
  {
    hide Worker;
    var after := SkipFirst(r, n, 0, t, NoopFirst());
    SkipSecond(r, n, 2, after, NoopFirst());
  }

  lemma SkipFirst(r: Request, n: nat, start: nat, t: Tally, write: Writes) returns (t': Tally)
    requires r == Request(2, Some(1), true) && n == 3 && start == 0 && write(0, 0) == Noop
    requires t.Successes() == 0 && t.failures == [] && t.visited == []
    ensures Worker(r, n, start, t, write) == Worker(r, n, 2, t', write)
    ensures t'.visited == [0] && t'.Successes() == 0 && t'.failures == []
  {
    hide Worker, VisitRange;
    var begun := t.(batches := t.batches + 1);
    RangeStep(r, begun, start, start + 1, write);
    RangeStep(r, begun, start, start, write);
    t' := Visit(r, begun, start, write);
    assert t'.visited == begun.visited + [start];
    hide Visit;
    WorkerStep(r, n, start, t, write);
  }

  lemma SkipSecond(r: Request, n: nat, start: nat, t: Tally, write: Writes)
    requires r == Request(2, Some(1), true) && n == 3 && start == 2 && write(1, 2) == Updated
    requires t.visited == [0] && t.Successes() == 0 && t.failures == []
    ensures Worker(r, n, start, t, write).visited == [0, 2]
  {
    hide Worker, VisitRange;
    var begun := t.(batches := t.batches + 1);
    RangeStep(r, begun, start, start + 1, write);
    RangeStep(r, begun, start, start, write);
    var after := Visit(r, begun, start, write);
    assert after.visited == [0] + [2] && after.failures == [];
    hide Visit;
    WorkerStep(r, n, start, t, write);
    WorkerEnds(r, n, start + 2, after, write);
  }

  // ---------------------------------------------------------------- slices

  /** Go's remainder, with the sign of the dividend. */
  function TruncMod(a: int, m: int): int
    requires m > 0
  {
    if a >= 0 then a % m else -((-a) % m)
  }

  /** sliceOf: the slice of a document, from the hash of its id. */
  function SliceOf(hash: int, max: int): (s: int)
    requires max > 0
  {
    var m := TruncMod(hash, max);
    if m < 0 then m + max else m
  }

  /** The slices are 0 to max - 1, by the residue of the hash. */
  lemma SliceInRange(hash: int, max: int) returns (q: int)
    requires max > 0
    ensures 0 <= SliceOf(hash, max) < max && hash == q * max + SliceOf(hash, max)
  {
    if hash >= 0 {
      q := hash / max;
    } else {
      q := -((-hash) / max);
      assert -hash == (-hash) / max * max + (-hash) % max;
      assert q * max == -((-hash) / max * max);
      if TruncMod(hash, max) < 0 {
        assert (q - 1) * max == q * max - max;
        q := q - 1;
      }
    }
  }

  /** The hits of every slice, in their order. */
  ghost predicate Partition(hashes: seq<int>, slices: nat, parts: seq<seq<nat>>, n: nat)
    requires slices > 0 && n <= |hashes|
  {
    && |parts| == slices
    && (forall s :: 0 <= s < slices ==> Increasing(parts[s]))
    && (forall s, i :: 0 <= s < slices && 0 <= i < |parts[s]| ==> parts[s][i] < n && SliceOf(hashes[parts[s][i]], slices) == s)
    && forall s, p: nat :: 0 <= s < slices && p < n && SliceOf(hashes[p], slices) == s ==> p in parts[s]
  }

  method SliceHits(hashes: seq<int>, slices: nat) returns (parts: seq<seq<nat>>)
    requires slices > 0
    ensures Partition(hashes, slices, parts, |hashes|)
    ensures |parts| == slices && Lengths(parts, slices) == |hashes|
  {
    parts := seq(slices, i => []);
    NoLengths(parts, slices);
    for n := 0 to |hashes|
      invariant Partition(hashes, slices, parts, n) && Lengths(parts, slices) == n
    {
      var _ := SliceInRange(hashes[n], slices);
      var s := SliceOf(hashes[n], slices);
      SliceGrows(hashes, slices, parts, n);
      LengthsGrow(parts, s, n, slices);
      parts := parts[s := parts[s] + [n]];
    }
  }

  function Lengths(parts: seq<seq<nat>>, k: nat): nat
    requires k <= |parts|
  {
    if k == 0 then 0 else Lengths(parts, k - 1) + |parts[k - 1]|
  }

  lemma {:induction false} NoLengths(parts: seq<seq<nat>>, k: nat)
    requires k <= |parts| && forall i :: 0 <= i < k ==> parts[i] == []
    ensures Lengths(parts, k) == 0
  {
    if k > 0 {
      NoLengths(parts, k - 1);
    }
  }

  lemma {:induction false} LengthsGrow(parts: seq<seq<nat>>, s: nat, p: nat, k: nat)
    requires s < |parts| && k <= |parts|
    ensures Lengths(parts[s := parts[s] + [p]], k) == Lengths(parts, k) + if s < k then 1 else 0
  {
    if k > 0 {
      LengthsGrow(parts, s, p, k - 1);
    }
  }

  lemma SliceGrows(hashes: seq<int>, slices: nat, parts: seq<seq<nat>>, n: nat)
    requires slices > 0 && n < |hashes| && Partition(hashes, slices, parts, n) && 0 <= SliceOf(hashes[n], slices) < slices
    ensures var s := SliceOf(hashes[n], slices);
            Partition(hashes, slices, parts[s := parts[s] + [n]], n + 1)
  {
    hide SliceOf;
    var s := SliceOf(hashes[n], slices);
    var grown := parts[s := parts[s] + [n]];
    forall q, p: nat | 0 <= q < slices && p < n + 1 && SliceOf(hashes[p], slices) == q ensures p in grown[q] {
      if p == n {
        assert grown[s][|parts[s]|] == n;
      } else {
        assert p in parts[q];
      }
    }
  }

  /** Every hit is in one slice. */
  lemma PartitionCovers(hashes: seq<int>, slices: nat, parts: seq<seq<nat>>, p: nat)
    requires slices > 0 && Partition(hashes, slices, parts, |hashes|) && p < |hashes|
    ensures exists s :: 0 <= s < slices && p in parts[s]
    ensures forall s, s' :: 0 <= s < slices && 0 <= s' < slices && p in parts[s] && p in parts[s'] ==> s == s'
  {
    var _ := SliceInRange(hashes[p], slices);
    assert p in parts[SliceOf(hashes[p], slices)];
  }

  /** The status of the request: the sums over the slices. */
  datatype Status = Status(total: nat, created: nat, updated: nat, deleted: nat, noops: nat, conflicts: nat, batches: nat, failures: nat)
  {
    function Successes(): nat { created + updated + deleted }
  }

  function Plus(a: Status, total: nat, t: Tally): Status {
    Status(a.total + total, a.created + t.created, a.updated + t.updated, a.deleted + t.deleted, a.noops + t.noops,
           a.conflicts + t.conflicts, a.batches + t.batches, a.failures + |t.failures|)
  }

  const EMPTY_STATUS := Status(0, 0, 0, 0, 0, 0, 0, 0)

  /** What the first k workers report, each of at most its share of its hits. */
  function Summed(share: Option<nat>, parts: seq<seq<nat>>, runs: seq<Tally>, k: nat): Status
    requires k <= |parts| && k <= |runs|
  {
    if k == 0 then EMPTY_STATUS
    else Plus(Summed(share, parts, runs, k - 1), AtMost(share, |parts[k - 1]|), runs[k - 1])
  }

  function AtMost(limit: Option<nat>, n: nat): nat { if limit.Some? && limit.value < n then limit.value else n }

  lemma {:induction false} SummedKeeps(share: Option<nat>, parts: seq<seq<nat>>, runs: seq<Tally>, t: Tally, k: nat)
    requires k <= |parts| && k <= |runs|
    ensures Summed(share, parts, runs + [t], k) == Summed(share, parts, runs, k)
  {
    if k > 0 {
      SummedKeeps(share, parts, runs, t, k - 1);
    }
  }

  /** The total is that of all hits, up to max_docs. */
  lemma {:induction false} SummedTotal(share: Option<nat>, parts: seq<seq<nat>>, runs: seq<Tally>, k: nat)
    requires k <= |parts| && k <= |runs|
    ensures Summed(share, parts, runs, k).total <= Lengths(parts, k)
    ensures share == None ==> Summed(share, parts, runs, k).total == Lengths(parts, k)
    ensures share.Some? ==> Summed(share, parts, runs, k).total <= k * share.value
  {
    if k > 0 {
      SummedTotal(share, parts, runs, k - 1);
      OneShare(k - 1, share);
    }
  }

  /** The sum of a counter over the first k workers. */
  ghost function Total(runs: seq<Tally>, counter: Tally -> nat, k: nat): nat
    requires k <= |runs|
  {
    if k == 0 then 0 else Total(runs, counter, k - 1) + counter(runs[k - 1])
  }

  /** Each counter of the status is the sum of that counter over the first k workers. */
  ghost predicate AddsUp(status: Status, runs: seq<Tally>, k: nat)
    requires k <= |runs|
  {
    && status.created == Total(runs, (t: Tally) => t.created, k) && status.updated == Total(runs, (t: Tally) => t.updated, k)
    && status.deleted == Total(runs, (t: Tally) => t.deleted, k) && status.noops == Total(runs, (t: Tally) => t.noops, k)
    && status.conflicts == Total(runs, (t: Tally) => t.conflicts, k) && status.batches == Total(runs, (t: Tally) => t.batches, k)
    && status.failures == Total(runs, (t: Tally) => |t.failures|, k)
  }

  lemma {:induction false} SummedEach(share: Option<nat>, parts: seq<seq<nat>>, runs: seq<Tally>, k: nat)
    requires k <= |parts| && k <= |runs|
    ensures AddsUp(Summed(share, parts, runs, k), runs, k)
  {
    if k > 0 {
      SummedEach(share, parts, runs, k - 1);
    }
  }

  function Visits(runs: seq<Tally>): nat {
    if runs == [] then 0 else Visits(runs[..|runs| - 1]) + |runs[|runs| - 1].visited|
  }

  /** One worker per slice, each with its share of max_docs. */
  method ExecuteSliced(batchSize: int, maxDocs: Option<nat>, proceed: bool, hashes: seq<int>, slices: nat, writes: nat -> Writes)
    returns (status: Status, parts: seq<seq<nat>>, runs: seq<Tally>)
    requires slices > 1
    ensures Partition(hashes, slices, parts, |hashes|) && |parts| == |runs| == slices
    ensures var r := Request(if batchSize <= 0 then DEFAULT_BATCH else batchSize, Share(maxDocs, slices), proceed);
            && (forall s :: 0 <= s < slices ==> runs[s] == Worker(r, |parts[s]|, 0, NOTHING, writes(s)))
            && (forall s :: 0 <= s < slices ==> Accounted(r, runs[s], |parts[s]|))
    ensures forall s :: 0 <= s < slices ==> Reported(proceed, runs[s], writes(s))
    ensures status == Summed(Share(maxDocs, slices), parts, runs, slices) && AddsUp(status, runs, slices)
    ensures status.Successes() + status.noops + (if proceed then status.conflicts else 0) + status.failures == Visits(runs)
    ensures status.total <= |hashes| && (maxDocs == None ==> status.total == |hashes|)
    ensures maxDocs.Some? ==> status.Successes() <= maxDocs.value && status.total <= maxDocs.value
  {
    hide Worker, Accounted, Reported, Partition, Summed, AddsUp;
    var share := Share(maxDocs, slices);
    parts := SliceHits(hashes, slices);
    ghost var r := Request(if batchSize <= 0 then DEFAULT_BATCH else batchSize, share, proceed);
    status, runs := EMPTY_STATUS, [];
    SummedStep(share, parts, runs, 0);
    for s := 0 to slices
      invariant |runs| == s
      invariant forall i :: 0 <= i < s ==> runs[i] == Worker(r, |parts[i]|, 0, NOTHING, writes(i)) && Accounted(r, runs[i], |parts[i]|)
      invariant forall i :: 0 <= i < s ==> (share.Some? ==> runs[i].Successes() <= share.value) && Balanced(proceed, runs[i]) && Reported(proceed, runs[i], writes(i))
      invariant status == Summed(share, parts, runs, s)
    {
      var total, t := RunWorker(batchSize, share, proceed, |parts[s]|, writes(s));
      WorkerAccounts(r, |parts[s]|, writes(s));
      AccountedBalances(r, t, |parts[s]|);
      SummedKeeps(share, parts, runs, t, s);
      SummedStep(share, parts, runs + [t], s + 1);
      status := Plus(status, total, t);
      runs := runs + [t];
    }
    SummedTotal(share, parts, runs, slices);
    SummedEach(share, parts, runs, slices);
    SummedVisits(proceed, share, parts, runs, slices);
    if share.Some? {
      SummedWithin(r, parts, runs, slices);
    }
    assert runs[..slices] == runs;
    AllShares(maxDocs, slices);
  }

  lemma SummedStep(share: Option<nat>, parts: seq<seq<nat>>, runs: seq<Tally>, k: nat)
    requires k <= |parts| && k <= |runs|
    ensures Summed(share, parts, runs, k)
         == if k == 0 then EMPTY_STATUS
            else Plus(Summed(share, parts, runs, k - 1), AtMost(share, |parts[k - 1]|), runs[k - 1])
  {
  }

  /** The hits of one slice, in order. */
  ghost predicate IsSlice(hashes: seq<int>, max: nat, id: int, mine: seq<nat>, n: nat)
    requires max > 0 && n <= |hashes|
  {
    && Increasing(mine) && (forall i :: 0 <= i < |mine| ==> mine[i] < n && SliceOf(hashes[mine[i]], max) == id)
    && forall p: nat :: p < n && SliceOf(hashes[p], max) == id ==> p in mine
  }

  /** The branch of a request for one slice of a given number of them. */
  method OneSlice(hashes: seq<int>, max: nat, id: int) returns (mine: seq<nat>)
    requires max > 0
    ensures IsSlice(hashes, max, id, mine, |hashes|)
  {
    mine := [];
    for p := 0 to |hashes|
      invariant IsSlice(hashes, max, id, mine, p)
    {
      if SliceOf(hashes[p], max) == id {
        assert (mine + [p])[|mine|] == p;
        mine := mine + [p];
      }
    }
  }

  /** Requests for all slices one by one work on the same hits as one sliced request. */
  lemma {:induction false} SlicesAgree(hashes: seq<int>, slices: nat, parts: seq<seq<nat>>, id: nat, mine: seq<nat>)
    requires slices > 0 && Partition(hashes, slices, parts, |hashes|) && id < slices && IsSlice(hashes, slices, id, mine, |hashes|)
    ensures mine == parts[id]
  {
    hide SliceOf;
    forall p ensures p in mine <==> p in parts[id] {
      if p in mine {
        var i :| 0 <= i < |mine| && mine[i] == p;
      }
      if p in parts[id] {
        var i :| 0 <= i < |parts[id]| && parts[id][i] == p;
      }
    }
    hide Partition, IsSlice;
    SameIncreasing(mine, parts[id]);
  }

  lemma {:induction false} SameIncreasing(a: seq<nat>, b: seq<nat>)
    requires Increasing(a) && Increasing(b) && forall p :: p in a <==> p in b
    ensures a == b
  {
    if a != [] {
      assert a[|a| - 1] in b;
    }
    if b != [] {
      assert b[|b| - 1] in a;
    }
    if a != [] && b != [] {
      var m, n := |a| - 1, |b| - 1;
      assert a[m] == b[n];
      forall p ensures p in a[..m] <==> p in b[..n] {
        LastIsGreatest(a, p);
        LastIsGreatest(b, p);
      }
      SameIncreasing(a[..m], b[..n]);
      assert a == a[..m] + [a[m]] && b == b[..n] + [b[n]];
    }
  }

  lemma LastIsGreatest(s: seq<nat>, p: nat)
    requires Increasing(s) && s != []
    ensures p in s[..|s| - 1] <==> p in s && p != s[|s| - 1]
  {
    if p in s && p != s[|s| - 1] {
      var i :| 0 <= i < |s| && s[i] == p;
      assert s[..|s| - 1][i] == p;
    }
  }

  /** slice is the id and the number of slices of a request for one of them; slices is 0 when the shards decide. */
  method ExecuteByScroll(batchSize: int, maxDocs: Option<nat>, proceed: bool, hashes: seq<int>, slice: Option<(int, nat)>, slices: nat,
                         numShards: int, writes: nat -> Writes)
    returns (status: Status, parts: seq<seq<nat>>, runs: seq<Tally>)
    requires slice.Some? ==> slice.value.1 > 0
    ensures |parts| == |runs| == if slice.Some? then 1 else NumSlices(slices, numShards)
    ensures slice.Some? ==> IsSlice(hashes, slice.value.1, slice.value.0, parts[0], |hashes|)
    ensures slice == None && |parts| == 1 ==> |parts[0]| == |hashes| && Prefix(parts[0])
    ensures slice == None && |parts| > 1 ==> Partition(hashes, |parts|, parts, |hashes|)
    ensures var r := Request(if batchSize <= 0 then DEFAULT_BATCH else batchSize, Share(maxDocs, |parts|), proceed);
            forall s :: 0 <= s < |parts| ==> runs[s] == Worker(r, |parts[s]|, 0, NOTHING, writes(s)) && Accounted(r, runs[s], |parts[s]|)
    ensures forall s :: 0 <= s < |parts| ==> Reported(proceed, runs[s], writes(s))
    ensures status == Summed(Share(maxDocs, |parts|), parts, runs, |parts|) && AddsUp(status, runs, |parts|)
    ensures maxDocs.Some? ==> status.Successes() <= maxDocs.value && status.total <= maxDocs.value
  {
    hide Worker, Accounted, Reported, Partition, Summed, AddsUp, IsSlice;
    if slice == None && NumSlices(slices, numShards) > 1 {
      status, parts, runs := ExecuteSliced(batchSize, maxDocs, proceed, hashes, NumSlices(slices, numShards), writes);
      return;
    }
    var mine := seq(|hashes|, i requires 0 <= i < |hashes| => i as nat);
    if slice.Some? {
      mine := OneSlice(hashes, slice.value.1, slice.value.0);
    }
    var total, t := RunWorker(batchSize, maxDocs, proceed, |mine|, writes(0));
    ghost var r := Request(if batchSize <= 0 then DEFAULT_BATCH else batchSize, Share(maxDocs, 1), proceed);
    WorkerAccounts(r, |mine|, writes(0));
    status, parts, runs := Plus(EMPTY_STATUS, total, t), [mine], [t];
    SummedStep(Share(maxDocs, 1), parts, runs, 1);
    SummedStep(Share(maxDocs, 1), parts, runs, 0);
    SummedEach(Share(maxDocs, 1), parts, runs, 1);
  }

  /** The number of slices of a request, from the number of shards when it is left open. */
  function NumSlices(slices: nat, numShards: int): (n: nat)
    ensures n > 0
  {
    if slices != 0 then slices else if numShards < 1 then 1 else numShards
  }

  function Share(maxDocs: Option<nat>, slices: nat): Option<nat>
    requires slices > 0
  {
    match maxDocs
    case None => None
    case Some(n) => Some(n / slices)
  }

  /** Successes, noops, tolerated conflicts and failures. */
  function VisitsIn(proceed: bool, status: Status): nat {
    status.Successes() + status.noops + (if proceed then status.conflicts else 0) + status.failures
  }

  /** Every visit of the first k workers is in their status once, */
  lemma {:induction false} SummedVisits(proceed: bool, share: Option<nat>, parts: seq<seq<nat>>, runs: seq<Tally>, k: nat)
    requires k <= |parts| && k <= |runs| && forall i :: 0 <= i < k ==> Balanced(proceed, runs[i])
    ensures VisitsIn(proceed, Summed(share, parts, runs, k)) == Visits(runs[..k])
    decreases k
  {
    hide Summed, Visits, VisitsIn, Plus;
    SummedStep(share, parts, runs, k);
    VisitsStep(runs, k);
    if k == 0 {
      NoVisits(proceed);
    } else {
      SummedVisits(proceed, share, parts, runs, k - 1);
      PlusVisits(proceed, Summed(share, parts, runs, k - 1), AtMost(share, |parts[k - 1]|), runs[k - 1]);
    }
  }

  lemma NoVisits(proceed: bool)
    ensures VisitsIn(proceed, EMPTY_STATUS) == 0
  {
  }

  lemma PlusVisits(proceed: bool, a: Status, total: nat, t: Tally)
    requires Balanced(proceed, t)
    ensures VisitsIn(proceed, Plus(a, total, t)) == VisitsIn(proceed, a) + |t.visited|
  {
  }

  /** and their successes are within their shares. */
  lemma {:induction false} SummedWithin(r: Request, parts: seq<seq<nat>>, runs: seq<Tally>, k: nat)
    requires k <= |parts| && k <= |runs| && r.maxDocs.Some?
    requires forall i :: 0 <= i < k ==> runs[i].Successes() <= r.maxDocs.value
    ensures Summed(r.maxDocs, parts, runs, k).Successes() <= k * r.maxDocs.value
    decreases k
  {
    hide Summed;
    SummedStep(r.maxDocs, parts, runs, k);
    if k > 0 {
      SummedWithin(r, parts, runs, k - 1);
      OneShare(k - 1, r.maxDocs);
    }
  }

  lemma VisitsStep(runs: seq<Tally>, k: nat)
    requires k <= |runs|
    ensures Visits(runs[..k]) == if k == 0 then 0 else Visits(runs[..k - 1]) + |runs[k - 1].visited|
  {
    if k > 0 {
      assert runs[..k][..k - 1] == runs[..k - 1];
    }
  }

  predicate Balanced(proceed: bool, t: Tally) {
    |t.visited| == t.Successes() + t.noops + (if proceed then t.conflicts else 0) + |t.failures|
  }

  lemma AccountedBalances(r: Request, t: Tally, n: nat)
    requires Accounted(r, t, n)
    ensures Balanced(r.proceed, t)
  {
  }

  lemma OneShare(s: nat, share: Option<nat>)
    ensures share.Some? ==> s * share.value + share.value == (s + 1) * share.value
  {
  }

  /** A share is the whole number of documents that every slice can have. */
  lemma ShareIsFloor(n: nat, slices: nat)
    requires slices > 0
    ensures var share := Share(Some(n), slices); share.Some? && slices * share.value <= n < slices * (share.value + 1)
    ensures Share(None, slices) == None
  {
    assert n == n / slices * slices + n % slices;
  }

  lemma AllShares(maxDocs: Option<nat>, slices: nat)
    requires slices > 0
    ensures maxDocs.Some? ==> slices * Share(maxDocs, slices).value <= maxDocs.value
  {
    if maxDocs.Some? {
      assert maxDocs.value == maxDocs.value / slices * slices + maxDocs.value % slices;
    }
  }

  /** No hit is visited twice, in whatever slices. */
  lemma VisitedOnce(hashes: seq<int>, slices: nat, parts: seq<seq<nat>>, r: Request, runs: seq<Tally>, s: nat, i: nat, s': nat, i': nat)
    requires slices > 0 && Partition(hashes, slices, parts, |hashes|) && |runs| == slices && s < slices && s' < slices
    requires Accounted(r, runs[s], |parts[s]|) && Accounted(r, runs[s'], |parts[s']|)
    requires i < |runs[s].visited| && i' < |runs[s'].visited|
    requires parts[s][runs[s].visited[i]] == parts[s'][runs[s'].visited[i']]
    ensures s == s' && i == i'
  {
    var v, v' := runs[s].visited[i], runs[s'].visited[i'];
    assert SliceOf(hashes[parts[s][v]], slices) == s && SliceOf(hashes[parts[s'][v']], slices) == s';
    assert v == v';
  }
}

/**
 * Clusters that share indices until one of them writes, internal/engine/cluster.go, as interleaved
 * steps of any number of goroutines over any number of clusters.
 *
 * A cluster's mutex serialises the operations on that cluster; the reference count of an index is
 * all that clusters have in common. The steps below are cut at every atomic access to a reference
 * count. What a cluster, a goroutine in the middle of an operation or a point in time holds is one
 * map from holders to indices: `Entry(c, name)` is the entry of `c.indices`, `Pending(t)` is the one
 * index a goroutine has a reference to outside of any cluster. Close and DeleteIndex release an
 * index and then delete its entry; the entry is gone in one step here, because nobody reads the map
 * of a locked cluster in between.
 */
module CopyOnWrite {
  import Lists
  import opened Options

  type ClusterId = nat
  type IndexId = nat
  type Tid = nat
  type PitId = nat
  type Name = string
  type Content = string   // settings, mapping, aliases and documents of an index

  /** closed: the underlying search index has been closed, which happens when the last reference goes. */
  datatype Index = Index(refs: int, content: Content, closed: bool)

  datatype Holder = Entry(c: ClusterId, name: Name) | Pending(t: Tid) | Pit(p: PitId)

  datatype Phase =
    | Locked                    // about to load the reference count
    | Shared                    // it was above 1: about to copy
    | Copied                    // holds a private copy, not yet in the cluster
    | Swapped                   // the copy is in the cluster: about to release the old index
    | Writable                  // may write in place

  datatype Task =
    | Cloning(c: ClusterId, n: ClusterId, todo: set<Name>, adding: Option<Name>)
    | Removing(c: ClusterId, todo: set<Name>)
    | Writing(c: ClusterId, name: Name, phase: Phase)

  datatype State = State(
    indices: map<IndexId, Index>,
    holds: map<Holder, IndexId>,
    tasks: map<Tid, Task>,
    clusters: set<ClusterId>,    // the ones a caller has, clones in progress excluded
    reserved: set<ClusterId>)    // the ones that exist

  // ---------------------------------------------------------------- locks

  predicate Reader(task: Task) { task.Cloning? }

  /** RLock is granted: no writer holds the cluster. */
  ghost predicate CanRead(s: State, c: ClusterId) {
    c in s.clusters && forall t :: t in s.tasks && s.tasks[t].c == c ==> Reader(s.tasks[t])
  }

  /** Lock is granted: nobody holds the cluster. */
  ghost predicate CanLock(s: State, c: ClusterId) {
    c in s.clusters && forall t :: t in s.tasks ==> s.tasks[t].c != c
  }

  // ---------------------------------------------------------------- steps

  datatype Step =
    | BeginClone(t: Tid, c: ClusterId, n: ClusterId, todo: set<Name>)
    | CloneAdd(t: Tid, name: Name)           // ix.refs.Add(1)
    | CloneInsert(t: Tid)                    // n.indices[k] = ix
    | EndClone(t: Tid)
    | BeginRemove(t: Tid, c: ClusterId, todo: set<Name>)   // Close, DeleteIndex
    | Release(t: Tid, name: Name)
    | EndRemove(t: Tid)
    | Create(c: ClusterId, name: Name, newId: IndexId, content: Content)
    | BeginWrite(t: Tid, c: ClusterId, name: Name)
    | Load(t: Tid)                           // ix.refs.Load() > 1
    | Copy(t: Tid, newId: IndexId)           // ix.copyIndex()
    | CopyFails(t: Tid)
    | Swap(t: Tid)                           // c.indices[name] = n
    | ReleaseOld(t: Tid)
    | Write(t: Tid, content: Content)
    | EndWrite(t: Tid)
    | OpenPit(p: PitId, c: ClusterId, name: Name)
    | RetainPit(q: PitId, p: PitId)          // a search keeps the snapshot it uses
    | ClosePit(p: PitId)

  /** The goroutine is at this step, and the locks it needs are free. */
  ghost predicate Guard(s: State, a: Step) {
    match a
    case BeginClone(t, c, n, todo) =>
      && t !in s.tasks && CanRead(s, c) && n !in s.reserved
      && forall name :: name in todo <==> Entry(c, name) in s.holds
    case CloneAdd(t, name) =>
      t in s.tasks && s.tasks[t].Cloning? && s.tasks[t].adding == None && name in s.tasks[t].todo
    case CloneInsert(t) =>
      t in s.tasks && s.tasks[t].Cloning? && s.tasks[t].adding.Some?
    case EndClone(t) =>
      t in s.tasks && s.tasks[t].Cloning? && s.tasks[t].adding == None && s.tasks[t].todo == {}
    case BeginRemove(t, c, todo) =>
      t !in s.tasks && CanLock(s, c) && forall name :: name in todo ==> Entry(c, name) in s.holds
    case Release(t, name) =>
      t in s.tasks && s.tasks[t].Removing? && name in s.tasks[t].todo
    case EndRemove(t) =>
      t in s.tasks && s.tasks[t].Removing? && s.tasks[t].todo == {}
    case Create(c, name, newId, _) =>
      CanLock(s, c) && Entry(c, name) !in s.holds && newId !in s.indices
    case BeginWrite(t, c, name) =>
      t !in s.tasks && CanLock(s, c)
    case Load(t) =>
      t in s.tasks && s.tasks[t].Writing? && s.tasks[t].phase == Locked
    case Copy(t, newId) =>
      t in s.tasks && s.tasks[t].Writing? && s.tasks[t].phase == Shared && newId !in s.indices
    case CopyFails(t) =>
      t in s.tasks && s.tasks[t].Writing? && s.tasks[t].phase == Shared
    case Swap(t) =>
      t in s.tasks && s.tasks[t].Writing? && s.tasks[t].phase == Copied
    case ReleaseOld(t) =>
      t in s.tasks && s.tasks[t].Writing? && s.tasks[t].phase == Swapped
    case Write(t, _) =>
      t in s.tasks && s.tasks[t].Writing? && s.tasks[t].phase == Writable
    case EndWrite(t) =>
      t in s.tasks && s.tasks[t].Writing? && s.tasks[t].phase == Writable
    case OpenPit(p, c, name) =>
      CanRead(s, c) && Entry(c, name) in s.holds && Pit(p) !in s.holds
    case RetainPit(q, p) =>
      Pit(p) in s.holds && Pit(q) !in s.holds
    case ClosePit(p) =>
      Pit(p) in s.holds
  }

  // The effects on reference counts.

  function AddRef(s: State, h: Holder, id: IndexId): State
    requires id in s.indices
  {
    s.(indices := s.indices[id := s.indices[id].(refs := s.indices[id].refs + 1)], holds := s.holds[h := id])
  }

  function DropRef(s: State, h: Holder): State
    requires h in s.holds && s.holds[h] in s.indices
  {
    var id := s.holds[h];
    var refs := s.indices[id].refs - 1;
    s.(indices := s.indices[id := s.indices[id].(refs := refs, closed := s.indices[id].closed || refs == 0)],
       holds := s.holds - {h})
  }

  /** A new index, referenced by its creator alone. */
  function NewIndex(s: State, h: Holder, id: IndexId, content: Content): State {
    s.(indices := s.indices[id := Index(1, content, false)], holds := s.holds[h := id])
  }

  /** The reference of `from` passes to `to`. */
  function MoveRef(s: State, from: Holder, to: Holder): State
    requires from in s.holds
  {
    s.(holds := s.holds[to := s.holds[from]] - {from})
  }

  /** Two holders exchange their indices. */
  function SwapRefs(s: State, h: Holder, k: Holder): State
    requires h in s.holds && k in s.holds
  {
    s.(holds := s.holds[h := s.holds[k]][k := s.holds[h]])
  }

  function SetTask(s: State, t: Tid, task: Task): State { s.(tasks := s.tasks[t := task]) }

  function EndTask(s: State, t: Tid): State { s.(tasks := s.tasks - {t}) }

  /** The references the step follows exist. */
  ghost predicate Defined(s: State, a: Step)
    requires Guard(s, a)
  {
    match a
    case CloneAdd(t, name) => Holds(s, Entry(s.tasks[t].c, name))
    case CloneInsert(t) => Holds(s, Pending(t))
    case Release(t, name) => Holds(s, Entry(s.tasks[t].c, name))
    case Load(t) => Entry(s.tasks[t].c, s.tasks[t].name) in s.holds ==> Holds(s, Entry(s.tasks[t].c, s.tasks[t].name))
    case Copy(t, _) => Holds(s, Entry(s.tasks[t].c, s.tasks[t].name))
    case Swap(t) => Holds(s, Entry(s.tasks[t].c, s.tasks[t].name)) && Holds(s, Pending(t))
    case ReleaseOld(t) => Holds(s, Pending(t))
    case Write(t, _) => Holds(s, Entry(s.tasks[t].c, s.tasks[t].name))
    case OpenPit(_, c, name) => Holds(s, Entry(c, name))
    case RetainPit(_, p) => Holds(s, Pit(p))
    case ClosePit(p) => Holds(s, Pit(p))
    case _ => true
  }

  ghost predicate Holds(s: State, h: Holder) { h in s.holds && s.holds[h] in s.indices }

  /** The state after a step. */
  ghost function Apply(s: State, a: Step): State
    requires Guard(s, a) && Defined(s, a)
  {
    match a
    case BeginClone(t, c, n, todo) =>
      SetTask(s.(reserved := s.reserved + {n}), t, Cloning(c, n, todo, None))
    case CloneAdd(t, name) =>
      var task := s.tasks[t];
      SetTask(AddRef(s, Pending(t), s.holds[Entry(task.c, name)]), t, task.(adding := Some(name)))
    case CloneInsert(t) =>
      var task := s.tasks[t];
      var name := task.adding.value;
      SetTask(MoveRef(s, Pending(t), Entry(task.n, name)), t, task.(adding := None, todo := task.todo - {name}))
    case EndClone(t) =>
      EndTask(s.(clusters := s.clusters + {s.tasks[t].n}), t)
    case BeginRemove(t, c, todo) =>
      SetTask(s, t, Removing(c, todo))
    case Release(t, name) =>
      var task := s.tasks[t];
      SetTask(DropRef(s, Entry(task.c, name)), t, task.(todo := task.todo - {name}))
    case EndRemove(t) =>
      EndTask(s, t)
    case Create(c, name, newId, content) =>
      NewIndex(s, Entry(c, name), newId, content)
    case BeginWrite(t, c, name) =>
      SetTask(s, t, Writing(c, name, Locked))
    case Load(t) =>
      var task := s.tasks[t];
      if Entry(task.c, task.name) !in s.holds then EndTask(s, t)
      else
        var isShared := s.indices[s.holds[Entry(task.c, task.name)]].refs > 1;
        SetTask(s, t, task.(phase := if isShared then Shared else Writable))
    case Copy(t, newId) =>
      var task := s.tasks[t];
      SetTask(NewIndex(s, Pending(t), newId, s.indices[s.holds[Entry(task.c, task.name)]].content),
              t, task.(phase := Copied))
    case CopyFails(t) =>
      EndTask(s, t)
    case Swap(t) =>
      var task := s.tasks[t];
      SetTask(SwapRefs(s, Entry(task.c, task.name), Pending(t)), t, task.(phase := Swapped))
    case ReleaseOld(t) =>
      SetTask(DropRef(s, Pending(t)), t, s.tasks[t].(phase := Writable))
    case Write(t, content) =>
      var id := s.holds[Entry(s.tasks[t].c, s.tasks[t].name)];
      s.(indices := s.indices[id := s.indices[id].(content := content)])
    case EndWrite(t) =>
      EndTask(s, t)
    case OpenPit(p, c, name) =>
      AddRef(s, Pit(p), s.holds[Entry(c, name)])
    case RetainPit(q, p) =>
      AddRef(s, Pit(q), s.holds[Pit(p)])
    case ClosePit(p) =>
      DropRef(s, Pit(p))
  }

  // ---------------------------------------------------------------- the invariant

  /** Every reference points to an index. */
  ghost predicate Grounded(s: State) { forall h :: h in s.holds ==> s.holds[h] in s.indices }

  /** What the tasks rely on. */
  ghost predicate TaskGood(s: State, t: Tid)
    requires t in s.tasks
  {
    match s.tasks[t]
    case Cloning(c, n, todo, adding) =>
      && c in s.clusters && n in s.reserved && n !in s.clusters
      && (forall u :: u in s.tasks && u != t ==> (s.tasks[u].Cloning? ==> s.tasks[u].n != n))
      && (forall name :: Entry(c, name) in s.holds <==> name in todo || Entry(n, name) in s.holds)
      && (forall name :: name in todo ==> Entry(n, name) !in s.holds)
      && (forall name :: Entry(n, name) in s.holds ==> Entry(c, name) in s.holds && s.holds[Entry(n, name)] == s.holds[Entry(c, name)])
      && match adding {
           case None => Pending(t) !in s.holds
           case Some(name) => name in todo && Entry(c, name) in s.holds && Pending(t) in s.holds && s.holds[Pending(t)] == s.holds[Entry(c, name)]
         }
    case Removing(c, todo) =>
      && c in s.clusters
      && (forall name :: name in todo ==> Entry(c, name) in s.holds)
      && Pending(t) !in s.holds
    case Writing(c, name, phase) =>
      && c in s.clusters
      && (phase != Locked ==> Entry(c, name) in s.holds)
      && (Pending(t) in s.holds <==> phase == Copied || phase == Swapped)
      && (phase == Copied ==>
            && Sole(s, Pending(t))
            && s.holds[Pending(t)] in s.indices && s.holds[Entry(c, name)] in s.indices
            && s.indices[s.holds[Pending(t)]].content == s.indices[s.holds[Entry(c, name)]].content)
      && (phase == Swapped || phase == Writable ==> Sole(s, Entry(c, name)))
  }

  /** No other holder has the index of h. */
  ghost predicate Sole(s: State, h: Holder)
    requires h in s.holds
  {
    forall k :: k in s.holds && s.holds[k] == s.holds[h] ==> k == h
  }

  ghost function Holders(holds: map<Holder, IndexId>, id: IndexId): set<Holder> {
    set h | h in holds && holds[h] == id
  }

  /** The reference counts are exact, in every state and in the middle of every operation. */
  ghost predicate Counted(s: State) {
    forall id :: id in s.indices ==> s.indices[id].refs == |Holders(s.holds, id)| && (s.indices[id].closed <==> s.indices[id].refs == 0)
  }

  ghost predicate LocksHeld(s: State) {
    forall t, u :: t in s.tasks && u in s.tasks && t != u && s.tasks[t].c == s.tasks[u].c ==> Reader(s.tasks[t]) && Reader(s.tasks[u])
  }

  ghost predicate EntriesKnown(s: State) {
    && s.clusters <= s.reserved
    && (forall c, name :: Entry(c, name) in s.holds ==> c in s.reserved)
    && (forall t :: Pending(t) in s.holds ==> t in s.tasks)
  }

  ghost predicate Inv(s: State) {
    && Grounded(s) && Counted(s) && LocksHeld(s) && EntriesKnown(s)
    && forall t :: t in s.tasks ==> TaskGood(s, t)
  }

  /** Any clusters, no indices. */
  ghost predicate Init(s: State) {
    s.indices == map[] && s.holds == map[] && s.tasks == map[] && s.clusters == s.reserved
  }

  lemma InitInv(s: State)
    requires Init(s)
    ensures Inv(s)
  {
  }

  /** In a state that satisfies the invariant every step finds the references it needs. */
  lemma InvDefined(s: State, a: Step)
    requires Inv(s) && Guard(s, a)
    ensures Defined(s, a)
  {
    match a
    case CloneAdd(t, name) => assert TaskGood(s, t);
    case CloneInsert(t) => assert TaskGood(s, t);
    case Release(t, name) => assert TaskGood(s, t);
    case Load(t) => assert TaskGood(s, t);
    case Copy(t, _) => assert TaskGood(s, t);
    case Swap(t) => assert TaskGood(s, t);
    case ReleaseOld(t) => assert TaskGood(s, t);
    case Write(t, _) => assert TaskGood(s, t);
    case _ =>
  }

  // ---------------------------------------------------------------- reference counts stay exact

  lemma AddedHolders(holds: map<Holder, IndexId>, h: Holder, id: IndexId, i: IndexId)
    requires h !in holds
    ensures |Holders(holds[h := id], i)| == |Holders(holds, i)| + if i == id then 1 else 0
  {
    assert Holders(holds[h := id], i) == if i == id then Holders(holds, i) + {h} else Holders(holds, i);
  }

  lemma DroppedHolders(holds: map<Holder, IndexId>, h: Holder, i: IndexId)
    requires h in holds
    ensures |Holders(holds - {h}, i)| == |Holders(holds, i)| - if i == holds[h] then 1 else 0
  {
    assert Holders(holds - {h}, i) == if i == holds[h] then Holders(holds, i) - {h} else Holders(holds, i);
    assert i == holds[h] ==> h in Holders(holds, i);
  }

  lemma AddCounts(s: State, h: Holder, id: IndexId)
    requires Grounded(s) && Counted(s) && h !in s.holds && Referenced(s, id)
    ensures var s' := AddRef(s, h, id); Grounded(s') && Counted(s')
  {
    forall i | i in s.indices {
      AddedHolders(s.holds, h, id, i);
    }
    var k :| k in s.holds && s.holds[k] == id;
    assert k in Holders(s.holds, id);
  }

  /** Somebody has a reference to the index. */
  ghost predicate Referenced(s: State, id: IndexId) {
    id in s.indices && exists k :: k in s.holds && s.holds[k] == id
  }

  lemma DropCounts(s: State, h: Holder)
    requires Grounded(s) && Counted(s) && h in s.holds
    ensures var s' := DropRef(s, h); Grounded(s') && Counted(s')
  {
    forall i | i in s.indices {
      DroppedHolders(s.holds, h, i);
    }
  }

  lemma NewCounts(s: State, h: Holder, id: IndexId, content: Content)
    requires Grounded(s) && Counted(s) && h !in s.holds && id !in s.indices
    ensures var s' := NewIndex(s, h, id, content); Grounded(s') && Counted(s')
  {
    forall i | i in s.indices {
      AddedHolders(s.holds, h, id, i);
    }
    AddedHolders(s.holds, h, id, id);
    assert Holders(s.holds, id) == {};
  }

  lemma MoveCounts(s: State, from: Holder, to: Holder)
    requires Grounded(s) && Counted(s) && from in s.holds && to !in s.holds
    ensures var s' := MoveRef(s, from, to); Grounded(s') && Counted(s')
  {
    var id := s.holds[from];
    forall i | i in s.indices ensures |Holders(MoveRef(s, from, to).holds, i)| == |Holders(s.holds, i)| {
      AddedHolders(s.holds, to, id, i);
      DroppedHolders(s.holds[to := id], from, i);
    }
  }

  lemma SwappedHolders(holds: map<Holder, IndexId>, h: Holder, k: Holder, i: IndexId)
    requires h in holds && k in holds
    ensures |Holders(holds[h := holds[k]][k := holds[h]], i)| == |Holders(holds, i)|
  {
    var swapped := holds[h := holds[k]][k := holds[h]];
    if holds[h] == holds[k] {
      assert swapped == holds;
    } else if i == holds[h] {
      assert Holders(swapped, i) == Holders(holds, i) - {h} + {k};
    } else if i == holds[k] {
      assert Holders(swapped, i) == Holders(holds, i) - {k} + {h};
    } else {
      assert Holders(swapped, i) == Holders(holds, i);
    }
  }

  lemma SwapCounts(s: State, h: Holder, k: Holder)
    requires Grounded(s) && Counted(s) && h in s.holds && k in s.holds
    ensures var s' := SwapRefs(s, h, k); Grounded(s') && Counted(s')
  {
    forall i | i in s.indices {
      SwappedHolders(s.holds, h, k, i);
    }
  }

  /** The counts depend on references and indices only. */
  lemma SameCounts(s: State, s': State)
    requires Grounded(s) && Counted(s) && s'.holds == s.holds && s'.indices.Keys == s.indices.Keys
    requires forall id :: id in s.indices ==> s'.indices[id].refs == s.indices[id].refs && s'.indices[id].closed == s.indices[id].closed
    ensures Grounded(s') && Counted(s')
  {
  }

  lemma StepCounts(s: State, a: Step)
    requires Inv(s) && Guard(s, a)
    ensures Defined(s, a) && Grounded(Apply(s, a)) && Counted(Apply(s, a))
  {
    InvDefined(s, a);
    match a
    case CloneAdd(t, name) =>
      assert TaskGood(s, t);
      AddCounts(s, Pending(t), s.holds[Entry(s.tasks[t].c, name)]);
    case CloneInsert(t) =>
      assert TaskGood(s, t);
      MoveCounts(s, Pending(t), Entry(s.tasks[t].n, s.tasks[t].adding.value));
    case Release(t, name) =>
      DropCounts(s, Entry(s.tasks[t].c, name));
    case Create(c, name, newId, content) =>
      NewCounts(s, Entry(c, name), newId, content);
    case Copy(t, newId) =>
      assert TaskGood(s, t);
      NewCounts(s, Pending(t), newId, s.indices[s.holds[Entry(s.tasks[t].c, s.tasks[t].name)]].content);
    case Swap(t) =>
      SwapCounts(s, Entry(s.tasks[t].c, s.tasks[t].name), Pending(t));
    case ReleaseOld(t) =>
      DropCounts(s, Pending(t));
    case OpenPit(p, c, name) =>
      AddCounts(s, Pit(p), s.holds[Entry(c, name)]);
    case RetainPit(q, p) =>
      AddCounts(s, Pit(q), s.holds[Pit(p)]);
    case ClosePit(p) =>
      DropCounts(s, Pit(p));
    case Write(t, content) =>
      SameCounts(s, Apply(s, a));
    case _ =>
      SameCounts(s, Apply(s, a));
  }

  // ---------------------------------------------------------------- tasks keep what they rely on

  /** The goroutine that takes a step, if it is one with a task. */
  ghost predicate ActsAs(a: Step, t: Tid) {
    match a
    case Create(_, _, _, _) => false
    case OpenPit(_, _, _) => false
    case RetainPit(_, _) => false
    case ClosePit(_) => false
    case _ => a.t == t
  }

  // What a step of somebody else leaves of a task, by the kind of change it makes to the references.

  lemma OthersQuiet(s: State, a: Step, u: Tid)
    requires Inv(s) && Guard(s, a) && Defined(s, a)
    requires a.BeginClone? || a.BeginRemove? || a.EndRemove? || a.BeginWrite? || a.Load? || a.CopyFails? || a.EndWrite?
    requires u in s.tasks && !ActsAs(a, u)
    ensures u in Apply(s, a).tasks && TaskGood(Apply(s, a), u)
  {
    assert TaskGood(s, u);
  }

  lemma OthersEndClone(s: State, a: Step, u: Tid)
    requires Inv(s) && Guard(s, a) && Defined(s, a)
    requires a.EndClone?
    requires u in s.tasks && !ActsAs(a, u)
    ensures u in Apply(s, a).tasks && TaskGood(Apply(s, a), u)
  {
    assert TaskGood(s, u);
    assert TaskGood(s, a.t);
  }

  lemma OthersCloneAdd(s: State, a: Step, u: Tid)
    requires Inv(s) && Guard(s, a) && Defined(s, a)
    requires a.CloneAdd?
    requires u in s.tasks && !ActsAs(a, u)
    ensures u in Apply(s, a).tasks && TaskGood(Apply(s, a), u)
  {
    assert TaskGood(s, u);
    assert TaskGood(s, a.t);
  }

  lemma OthersPit(s: State, a: Step, u: Tid)
    requires Inv(s) && Guard(s, a) && Defined(s, a)
    requires a.OpenPit? || a.RetainPit?
    requires u in s.tasks && !ActsAs(a, u)
    ensures u in Apply(s, a).tasks && TaskGood(Apply(s, a), u)
  {
    assert TaskGood(s, u);
  }

  lemma OthersCloneInsert(s: State, a: Step, u: Tid)
    requires Inv(s) && Guard(s, a) && Defined(s, a)
    requires a.CloneInsert?
    requires u in s.tasks && !ActsAs(a, u)
    ensures u in Apply(s, a).tasks && TaskGood(Apply(s, a), u)
  {
    assert TaskGood(s, u);
    assert TaskGood(s, a.t);
  }

  lemma OthersRelease(s: State, a: Step, u: Tid)
    requires Inv(s) && Guard(s, a) && Defined(s, a)
    requires a.Release?
    requires u in s.tasks && !ActsAs(a, u)
    ensures u in Apply(s, a).tasks && TaskGood(Apply(s, a), u)
  {
    assert TaskGood(s, u);
    assert TaskGood(s, a.t);
  }

  lemma OthersReleaseOld(s: State, a: Step, u: Tid)
    requires Inv(s) && Guard(s, a) && Defined(s, a)
    requires a.ReleaseOld? || a.ClosePit?
    requires u in s.tasks && !ActsAs(a, u)
    ensures u in Apply(s, a).tasks && TaskGood(Apply(s, a), u)
  {
    assert TaskGood(s, u);
    if a.ReleaseOld? {
      assert TaskGood(s, a.t);
    }
  }

  lemma OthersCreate(s: State, a: Step, u: Tid)
    requires Inv(s) && Guard(s, a) && Defined(s, a)
    requires a.Create?
    requires u in s.tasks && !ActsAs(a, u)
    ensures u in Apply(s, a).tasks && TaskGood(Apply(s, a), u)
  {
    assert TaskGood(s, u);
  }

  lemma OthersCopy(s: State, a: Step, u: Tid)
    requires Inv(s) && Guard(s, a) && Defined(s, a)
    requires a.Copy?
    requires u in s.tasks && !ActsAs(a, u)
    ensures u in Apply(s, a).tasks && TaskGood(Apply(s, a), u)
  {
    assert TaskGood(s, u);
    assert TaskGood(s, a.t);
  }

  lemma OthersSwap(s: State, a: Step, u: Tid)
    requires Inv(s) && Guard(s, a) && Defined(s, a)
    requires a.Swap?
    requires u in s.tasks && !ActsAs(a, u)
    ensures u in Apply(s, a).tasks && TaskGood(Apply(s, a), u)
  {
    assert TaskGood(s, u);
    assert TaskGood(s, a.t);
  }

  lemma OthersWrite(s: State, a: Step, u: Tid)
    requires Inv(s) && Guard(s, a) && Defined(s, a)
    requires a.Write?
    requires u in s.tasks && !ActsAs(a, u)
    ensures u in Apply(s, a).tasks && TaskGood(Apply(s, a), u)
  {
    assert TaskGood(s, u);
    assert TaskGood(s, a.t);
  }

  lemma OthersGood(s: State, a: Step, u: Tid)
    requires Inv(s) && Guard(s, a) && Defined(s, a)
    requires u in s.tasks && !ActsAs(a, u)
    ensures u in Apply(s, a).tasks && TaskGood(Apply(s, a), u)
  {
    hide TaskGood, Inv, Guard, Apply, Defined;
    match a
    case CloneAdd(_, _) => OthersCloneAdd(s, a, u);
    case CloneInsert(_) => OthersCloneInsert(s, a, u);
    case EndClone(_) => OthersEndClone(s, a, u);
    case Release(_, _) => OthersRelease(s, a, u);
    case Create(_, _, _, _) => OthersCreate(s, a, u);
    case Copy(_, _) => OthersCopy(s, a, u);
    case Swap(_) => OthersSwap(s, a, u);
    case ReleaseOld(_) => OthersReleaseOld(s, a, u);
    case ClosePit(_) => OthersReleaseOld(s, a, u);
    case Write(_, _) => OthersWrite(s, a, u);
    case OpenPit(_, _, _) => OthersPit(s, a, u);
    case RetainPit(_, _) => OthersPit(s, a, u);
    case _ => OthersQuiet(s, a, u);
  }

  /** A reference count of 1 means there is no other holder. */
  lemma SoleFromCount(s: State, h: Holder)
    requires Grounded(s) && Counted(s) && h in s.holds && s.indices[s.holds[h]].refs <= 1
    ensures Sole(s, h)
  {
    var all := Holders(s.holds, s.holds[h]);
    forall k | k in s.holds && s.holds[k] == s.holds[h] ensures k == h {
      assert {h, k} <= all;
      Lists.SubsetSize({h, k}, all);
    }
  }

  lemma ActorLoads(s: State, t: Tid)
    requires Inv(s) && Guard(s, Load(t)) && Defined(s, Load(t)) && t in Apply(s, Load(t)).tasks
    ensures TaskGood(Apply(s, Load(t)), t)
  {
    assert TaskGood(s, t);
    var h := Entry(s.tasks[t].c, s.tasks[t].name);
    if s.indices[s.holds[h]].refs <= 1 {
      SoleFromCount(s, h);
    }
  }

  lemma ActorClones(s: State, a: Step)
    requires Inv(s) && Guard(s, a) && Defined(s, a)
    requires a.BeginClone? || a.CloneAdd? || a.CloneInsert?
    ensures a.t in Apply(s, a).tasks && TaskGood(Apply(s, a), a.t)
  {
    if a.t in s.tasks {
      assert TaskGood(s, a.t);
    }
  }

  lemma ActorWrites(s: State, a: Step)
    requires Inv(s) && Guard(s, a) && Defined(s, a)
    requires a.BeginRemove? || a.Release? || a.BeginWrite? || a.Copy? || a.Swap? || a.ReleaseOld? || a.Write?
    ensures a.t in Apply(s, a).tasks && TaskGood(Apply(s, a), a.t)
  {
    if a.t in s.tasks {
      assert TaskGood(s, a.t);
    }
  }

  /** What the goroutine that took the step does next. */
  lemma ActorGood(s: State, a: Step, t: Tid)
    requires Inv(s) && Guard(s, a) && Defined(s, a)
    requires ActsAs(a, t) && t in Apply(s, a).tasks
    ensures TaskGood(Apply(s, a), t)
  {
    if a.Load? {
      ActorLoads(s, t);
    } else if a.BeginClone? || a.CloneAdd? || a.CloneInsert? {
      ActorClones(s, a);
    } else {
      ActorWrites(s, a);
    }
  }

  /** Who runs on which cluster, and whether it only reads. */
  ghost predicate SameLocks(s: State, s': State) {
    forall t :: t in s'.tasks ==> t in s.tasks && s'.tasks[t].c == s.tasks[t].c && Reader(s'.tasks[t]) == Reader(s.tasks[t])
  }

  lemma OnlyBeginLocks(s: State, a: Step)
    requires Guard(s, a) && Defined(s, a) && !(a.BeginClone? || a.BeginRemove? || a.BeginWrite?)
    ensures SameLocks(s, Apply(s, a))
  {
  }

  lemma StepLocks(s: State, a: Step)
    requires LocksHeld(s) && Guard(s, a) && Defined(s, a)
    ensures LocksHeld(Apply(s, a))
  {
    if !(a.BeginClone? || a.BeginRemove? || a.BeginWrite?) {
      OnlyBeginLocks(s, a);
    }
  }

  lemma StepEntries(s: State, a: Step)
    requires Inv(s) && Guard(s, a) && Defined(s, a)
    ensures EntriesKnown(Apply(s, a))
  {
    if !(a.Create? || a.OpenPit? || a.RetainPit? || a.ClosePit?) && a.t in s.tasks {
      assert TaskGood(s, a.t);
    }
  }

  /** The invariant holds in every reachable state, whatever the interleaving. */
  lemma StepInv(s: State, a: Step)
    requires Inv(s) && Guard(s, a)
    ensures Defined(s, a) && Inv(Apply(s, a))
  {
    StepCounts(s, a);
    StepLocks(s, a);
    StepEntries(s, a);
    var s' := Apply(s, a);
    forall u | u in s'.tasks ensures TaskGood(s', u) {
      if ActsAs(a, u) {
        ActorGood(s, a, u);
      } else {
        OthersGood(s, a, u);
      }
    }
  }

  // ---------------------------------------------------------------- consequences for one state

  /** A closed index is never reached through a reference. */
  lemma NothingHeldIsClosed(s: State, h: Holder)
    requires Inv(s) && h in s.holds
    ensures !s.indices[s.holds[h]].closed
  {
    assert h in Holders(s.holds, s.holds[h]);
  }

  ghost function Mappings(s: State, id: IndexId): set<Holder> {
    set h | h in s.holds && s.holds[h] == id && h.Entry?
  }

  /** The reference count covers the clusters that map to the index, and is their number when nothing else holds it. */
  lemma RefsCoverMappings(s: State, id: IndexId)
    requires Inv(s) && id in s.indices
    ensures |Mappings(s, id)| <= s.indices[id].refs
    ensures (forall h :: h in s.holds && s.holds[h] == id ==> h.Entry?) ==> |Mappings(s, id)| == s.indices[id].refs
  {
    Lists.SubsetSize(Mappings(s, id), Holders(s.holds, id));
    if forall h :: h in s.holds && s.holds[h] == id ==> h.Entry? {
      assert Mappings(s, id) == Holders(s.holds, id);
    }
  }

  /** A write in place touches an index that no other cluster, snapshot or running copy has. */
  lemma WriteIsUnshared(s: State, t: Tid, content: Content)
    requires Inv(s) && Guard(s, Write(t, content))
    ensures var h := Entry(s.tasks[t].c, s.tasks[t].name);
            h in s.holds && Sole(s, h) && s.indices[s.holds[h]].refs == 1
  {
    assert TaskGood(s, t);
    var h := Entry(s.tasks[t].c, s.tasks[t].name);
    assert Holders(s.holds, s.holds[h]) == {h};
  }

  // ---------------------------------------------------------------- sharing is invisible

  /** What can be read through a finished cluster or a snapshot. */
  ghost predicate Visible(s: State, h: Holder) { h.Pit? || (h.Entry? && h.c in s.clusters) }

  /** The contents behind every visible reference: what clusters with separate copies would hold. */
  ghost function View(s: State): map<Holder, Content>
    requires Grounded(s)
  {
    map h | h in s.holds && Visible(s, h) :: s.indices[s.holds[h]].content
  }

  /** What a step means for clusters that share nothing. */
  datatype Event =
    | Silent
    | Put(h: Holder, content: Content)
    | Gone(h: Holder)
    | Fork(c: ClusterId, n: ClusterId)
    | Snap(p: PitId, h: Holder)

  /** The entries of n that a clone of c gets. */
  ghost function Forked(v: map<Holder, Content>, c: ClusterId, n: ClusterId): map<Holder, Content> {
    map h | h in v && h.Entry? && h.c == c :: Entry(n, h.name) := v[h]
  }

  ghost function Replay(v: map<Holder, Content>, e: Event): map<Holder, Content>
    requires e.Snap? ==> e.h in v
  {
    match e
    case Silent => v
    case Put(h, content) => v[h := content]
    case Gone(h) => v - {h}
    case Fork(c, n) => v + Forked(v, c, n)
    case Snap(p, h) => v[Pit(p) := v[h]]
  }

  ghost function Label(s: State, a: Step): Event
    requires Guard(s, a)
  {
    match a
    case EndClone(t) => Fork(s.tasks[t].c, s.tasks[t].n)
    case Release(t, name) => Gone(Entry(s.tasks[t].c, name))
    case Create(c, name, _, content) => Put(Entry(c, name), content)
    case Write(t, content) => Put(Entry(s.tasks[t].c, s.tasks[t].name), content)
    case OpenPit(p, c, name) => Snap(p, Entry(c, name))
    case RetainPit(q, p) => Snap(q, Pit(p))
    case ClosePit(p) => Gone(Pit(p))
    case _ => Silent
  }

  /** What can be read through one holder. */
  ghost function ReadAt(s: State, h: Holder): Option<Content>
    requires Grounded(s)
  {
    if h in s.holds && Visible(s, h) then Some(s.indices[s.holds[h]].content) else None
  }

  function At(v: map<Holder, Content>, h: Holder): Option<Content> {
    if h in v then Some(v[h]) else None
  }

  /** The event, seen at one holder. */
  function ReplayAt(e: Event, h: Holder, at: Option<Content>, source: Option<Content>): Option<Content> {
    match e
    case Silent => at
    case Put(k, content) => if h == k then Some(content) else at
    case Gone(k) => if h == k then None else at
    case Fork(c, n) => if h.Entry? && h.c == n && source.Some? then source else at
    case Snap(p, k) => if h == Pit(p) then source else at
  }

  /** The holder that the content comes from. */
  function Source(e: Event, h: Holder): Holder {
    match e
    case Fork(c, n) => if h.Entry? then Entry(c, h.name) else h
    case Snap(_, k) => k
    case _ => h
  }

  lemma ReplayPointwise(v: map<Holder, Content>, e: Event, h: Holder)
    requires e.Snap? ==> e.h in v
    ensures At(Replay(v, e), h) == ReplayAt(e, h, At(v, h), At(v, Source(e, h)))
  {
    if e.Fork? && h.Entry? && h.c == e.n {
      ForkedAt(v, e.c, e.n, h.name);
    }
  }

  lemma ForkedAt(v: map<Holder, Content>, c: ClusterId, n: ClusterId, name: Name)
    ensures At(Forked(v, c, n), Entry(n, name)) == At(v, Entry(c, name))
  {
    if Entry(c, name) in v {
      assert Entry(n, Entry(c, name).name) in Forked(v, c, n);
    }
  }

  /** The step does at one holder what its event says. */
  ghost predicate RefinedAt(s: State, a: Step, h: Holder)
    requires Grounded(s) && Guard(s, a) && Defined(s, a) && Grounded(Apply(s, a))
  {
    var e := Label(s, a);
    && (e.Snap? ==> ReadAt(s, e.h).Some?)
    && ReadAt(Apply(s, a), h) == ReplayAt(e, h, ReadAt(s, h), ReadAt(s, Source(e, h)))
  }

  lemma RefinesClone(s: State, a: Step, h: Holder)
    requires Inv(s) && Guard(s, a) && Defined(s, a) && Grounded(Apply(s, a))
    requires a.CloneAdd? || a.CloneInsert? || a.BeginClone?
    ensures RefinedAt(s, a, h)
  {
    if a.t in s.tasks {
      assert TaskGood(s, a.t);
    }
  }

  lemma RefinesEndClone(s: State, a: Step, h: Holder)
    requires Inv(s) && Guard(s, a) && Defined(s, a) && Grounded(Apply(s, a)) && a.EndClone?
    ensures RefinedAt(s, a, h)
  {
    assert TaskGood(s, a.t);
  }

  lemma RefinesWrite(s: State, a: Step, h: Holder)
    requires Inv(s) && Guard(s, a) && Defined(s, a) && Grounded(Apply(s, a))
    requires a.BeginWrite? || a.Load? || a.Copy? || a.CopyFails? || a.Swap? || a.EndWrite?
    ensures RefinedAt(s, a, h)
  {
    if a.t in s.tasks {
      assert TaskGood(s, a.t);
    }
  }

  lemma RefinesPut(s: State, a: Step, h: Holder)
    requires Inv(s) && Guard(s, a) && Defined(s, a) && Grounded(Apply(s, a))
    requires a.Write? || a.Create?
    ensures RefinedAt(s, a, h)
  {
    if a.Write? {
      assert TaskGood(s, a.t);
    }
  }

  lemma RefinesRelease(s: State, a: Step, h: Holder)
    requires Inv(s) && Guard(s, a) && Defined(s, a) && Grounded(Apply(s, a))
    requires a.Release? || a.ReleaseOld?
    ensures RefinedAt(s, a, h)
  {
    assert TaskGood(s, a.t);
  }

  lemma RefinesRemove(s: State, a: Step, h: Holder)
    requires Inv(s) && Guard(s, a) && Defined(s, a) && Grounded(Apply(s, a))
    requires a.BeginRemove? || a.EndRemove? || a.ClosePit?
    ensures RefinedAt(s, a, h)
  {
  }

  lemma RefinesSnap(s: State, a: Step, h: Holder)
    requires Inv(s) && Guard(s, a) && Defined(s, a) && Grounded(Apply(s, a))
    requires a.OpenPit? || a.RetainPit?
    ensures RefinedAt(s, a, h)
  {
  }

  lemma RefinesAt(s: State, a: Step, h: Holder)
    requires Inv(s) && Guard(s, a) && Defined(s, a) && Grounded(Apply(s, a))
    ensures RefinedAt(s, a, h)
  {
    match a
    case BeginClone(_, _, _, _) => RefinesClone(s, a, h);
    case CloneAdd(_, _) => RefinesClone(s, a, h);
    case CloneInsert(_) => RefinesClone(s, a, h);
    case EndClone(_) => RefinesEndClone(s, a, h);
    case BeginRemove(_, _, _) => RefinesRemove(s, a, h);
    case Release(_, _) => RefinesRelease(s, a, h);
    case EndRemove(_) => RefinesRemove(s, a, h);
    case ReleaseOld(_) => RefinesRelease(s, a, h);
    case ClosePit(_) => RefinesRemove(s, a, h);
    case Create(_, _, _, _) => RefinesPut(s, a, h);
    case Write(_, _) => RefinesPut(s, a, h);
    case OpenPit(_, _, _) => RefinesSnap(s, a, h);
    case RetainPit(_, _) => RefinesSnap(s, a, h);
    case _ => RefinesWrite(s, a, h);
  }

  lemma ViewIsReads(s: State, h: Holder)
    requires Grounded(s)
    ensures At(View(s), h) == ReadAt(s, h)
  {
  }

  lemma SameReads(v: map<Holder, Content>, w: map<Holder, Content>)
    requires forall h {:trigger At(v, h)} :: At(v, h) == At(w, h)
    ensures v == w
  {
    assert forall h :: h in v ==> At(v, h).Some?;
    assert forall h :: h in w ==> At(w, h).Some? && At(v, h).Some?;
    assert forall h :: h in v <==> h in w;
  }

  /** Every step does to what can be read exactly what it would do to clusters that share nothing. */
  lemma StepRefines(s: State, a: Step)
    requires Inv(s) && Guard(s, a)
    ensures Defined(s, a) && Inv(Apply(s, a))
    ensures Label(s, a).Snap? ==> Label(s, a).h in View(s)
    ensures View(Apply(s, a)) == Replay(View(s), Label(s, a))
  {
    StepInv(s, a);
    var s', e := Apply(s, a), Label(s, a);
    if e.Snap? {
      RefinesAt(s, a, e.h);
      ViewIsReads(s, e.h);
    }
    StepViews(s, a, s', e, View(s), View(s'));
  }

  lemma StepViews(s: State, a: Step, s': State, e: Event, v: map<Holder, Content>, v': map<Holder, Content>)
    requires Inv(s) && Guard(s, a) && Defined(s, a) && s' == Apply(s, a) && Grounded(s') && e == Label(s, a)
    requires v == View(s) && v' == View(s') && (e.Snap? ==> e.h in v)
    ensures v' == Replay(v, e)
  {
    forall h ensures At(v', h) == At(Replay(v, e), h) {
      RefinesAt(s, a, h);
      ReplayPointwise(v, e, h);
      ViewIsReads(s, h);
      ViewIsReads(s, Source(e, h));
      ViewIsReads(s', h);
    }
    SameReads(v', Replay(v, e));
  }

  // ---------------------------------------------------------------- whole runs

  /** Each step is taken when its guard holds. */
  ghost predicate Run(s: State, steps: seq<Step>, s': State)
    decreases |steps|
  {
    if steps == [] then s' == s
    else Guard(s, steps[0]) && Defined(s, steps[0]) && Run(Apply(s, steps[0]), steps[1..], s')
  }

  /** The events of a run, replayed one after the other. */
  ghost predicate Replays(s: State, steps: seq<Step>, v: map<Holder, Content>, v': map<Holder, Content>)
    decreases |steps|
  {
    if steps == [] then v' == v
    else
      && Guard(s, steps[0]) && Defined(s, steps[0])
      && (Label(s, steps[0]).Snap? ==> Label(s, steps[0]).h in v)
      && Replays(Apply(s, steps[0]), steps[1..], Replay(v, Label(s, steps[0])), v')
  }

  /** Over any run of any number of clusters, sharing indices is indistinguishable from copying them. */
  lemma {:induction false} RunRefines(s: State, steps: seq<Step>, s': State)
    requires Inv(s) && Run(s, steps, s')
    ensures Inv(s') && Replays(s, steps, View(s), View(s'))
    decreases |steps|
  {
    if steps != [] {
      StepRefines(s, steps[0]);
      RunRefines(Apply(s, steps[0]), steps[1..], s');
    }
  }

  /** The step changes what can be read through the holder. */
  ghost predicate Touches(s: State, a: Step, h: Holder)
    requires Guard(s, a)
  {
    match Label(s, a)
    case Silent => false
    case Put(k, _) => k == h
    case Gone(k) => k == h
    case Fork(_, n) => h.Entry? && h.c == n
    case Snap(p, _) => h == Pit(p)
  }

  ghost predicate Untouched(s: State, steps: seq<Step>, h: Holder)
    decreases |steps|
  {
    steps != [] ==>
      && Guard(s, steps[0]) && Defined(s, steps[0])
      && !Touches(s, steps[0], h)
      && Untouched(Apply(s, steps[0]), steps[1..], h)
  }

  /** No cluster and no snapshot ever observes the writes of another cluster. */
  lemma {:induction false} RunIsolated(s: State, steps: seq<Step>, s': State, h: Holder)
    requires Inv(s) && Run(s, steps, s') && Untouched(s, steps, h) && h in View(s)
    ensures Inv(s') && h in View(s') && View(s')[h] == View(s)[h]
    decreases |steps|
  {
    hide Inv, Guard, Defined, Apply, View, Touches;
    if steps != [] {
      StepIsolated(s, steps[0], h);
      RunIsolated(Apply(s, steps[0]), steps[1..], s', h);
    }
  }

  lemma StepIsolated(s: State, a: Step, h: Holder)
    requires Inv(s) && Guard(s, a) && !Touches(s, a, h) && h in View(s)
    ensures Defined(s, a) && Inv(Apply(s, a)) && h in View(Apply(s, a)) && View(Apply(s, a))[h] == View(s)[h]
  {
    StepRefines(s, a);
    hide Inv, Guard, Defined, Apply, View, Label;
  }
}

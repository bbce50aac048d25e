/**
 * What a batch of alias actions means for every index and alias, internal/engine/alias.go, said of the
 * request and of the tables before and after, without the order in which the code works.
 */
module AliasMeaning {
  import opened Aliases
  import Lists
  import opened Options
  import Wildcard

  // ---------------------------------------------------------------- final actions

  /** The final action is about this alias of this index. */
  ghost predicate On(f: Final, n: string, x: string) { !f.FinalRemoveIndex? && f.index == n && f.alias == x }

  /** Of the first k final actions, the one at i is the last about the alias of the index. */
  ghost predicate LastOn(fs: seq<Final>, k: nat, n: string, x: string, i: nat)
    requires k <= |fs|
  {
    i < k && On(fs[i], n, x) && forall j :: i < j < k ==> !On(fs[j], n, x)
  }

  ghost predicate NoneOn(fs: seq<Final>, k: nat, n: string, x: string)
    requires k <= |fs|
  {
    forall j :: 0 <= j < k ==> !On(fs[j], n, x)
  }

  ghost predicate SameEntry(a: Table, b: Table, x: string) {
    (x in a <==> x in b) && (x in a ==> a[x] == b[x])
  }

  /** The entry is that of the last final action about it, or as it was when there is none. */
  ghost predicate EntryExact(ixs: Indices, fs: seq<Final>, k: nat, w: Indices, n: string, x: string)
    requires k <= |fs| && n in ixs && n in w
  {
    && (NoneOn(fs, k, n, x) ==> SameEntry(w[n], ixs[n], x))
    && forall i: nat :: LastOn(fs, k, n, x, i) ==>
         match fs[i]
         case FinalAdd(_, _, def) => x in w[n] && w[n][x] == def
         case _ => x !in w[n]
  }

  lemma {:induction false} ReplayExact(ixs: Indices, env: Env, removed: set<string>, fs: seq<Final>, k: nat, n: string, x: string)
    requires k <= |fs| && Replay(ixs, env, removed, fs, k).Ok? && n in ixs
    ensures EntryExact(ixs, fs, k, Replay(ixs, env, removed, fs, k).value, n, x)
  {
    if k > 0 {
      ReplayExact(ixs, env, removed, fs, k - 1, n, x);
      LastNext(fs, k, n, x);
    }
  }

  lemma LastNext(fs: seq<Final>, k: nat, n: string, x: string)
    requires 0 < k <= |fs|
    ensures On(fs[k - 1], n, x) ==> !NoneOn(fs, k, n, x) && forall i: nat :: LastOn(fs, k, n, x, i) <==> i == k - 1
    ensures !On(fs[k - 1], n, x) ==>
              (NoneOn(fs, k, n, x) <==> NoneOn(fs, k - 1, n, x)) && forall i: nat :: LastOn(fs, k, n, x, i) <==> LastOn(fs, k - 1, n, x, i)
  {
  }

  // ---------------------------------------------------------------- failures

  /** The alias is on the index when k final actions have run. */
  ghost predicate PresentAt(ixs: Indices, fs: seq<Final>, k: nat, n: string, x: string)
    requires k <= |fs| && n in ixs
  {
    || (NoneOn(fs, k, n, x) && x in ixs[n])
    || exists i: nat :: LastOn(fs, k, n, x, i) && fs[i].FinalAdd?
  }

  /** Why the final action at k fails, if it does. */
  ghost predicate FailsAt(ixs: Indices, env: Env, removed: set<string>, fs: seq<Final>, k: nat, e: Error)
    requires k < |fs|
  {
    match fs[k]
    case FinalRemoveIndex(_) => false
    case FinalAdd(n, x, def) =>
      if n !in ixs || n in removed then e == IndexNotFound
      else if !env.validName(x, def) then e == InvalidAlias
      else if x in ixs && x !in removed then e == NameIsIndex
      else !env.validFilter(n, x, def) && e == InvalidFilter
    case FinalRemove(n, x, mustExist) =>
      if n !in ixs || n in removed then e == IndexNotFound
      else mustExist == Some(true) && !PresentAt(ixs, fs, k, n, x) && e == RequiredAliasMissing
  }

  /** The first final action that fails, with its error. */
  ghost predicate FirstFailure(ixs: Indices, env: Env, removed: set<string>, fs: seq<Final>, n: nat, k: nat, e: Error)
    requires n <= |fs|
  {
    k < n && FailsAt(ixs, env, removed, fs, k, e) && forall j: nat, d :: j < k ==> !FailsAt(ixs, env, removed, fs, j, d)
  }

  lemma PresentExactly(ixs: Indices, fs: seq<Final>, k: nat, w: Indices, n: string, x: string)
    requires k <= |fs| && n in ixs && n in w && EntryExact(ixs, fs, k, w, n, x)
    ensures PresentAt(ixs, fs, k, n, x) <==> x in w[n]
  {
    if !NoneOn(fs, k, n, x) {
      var i := LastOnExists(fs, k, n, x);
    }
  }

  lemma {:induction false} LastOnExists(fs: seq<Final>, k: nat, n: string, x: string) returns (i: nat)
    requires k <= |fs| && !NoneOn(fs, k, n, x)
    ensures LastOn(fs, k, n, x, i)
  {
    if On(fs[k - 1], n, x) {
      i := k - 1;
    } else {
      i := LastOnExists(fs, k - 1, n, x);
    }
  }

  /** The next final action fails with an error exactly when the description says so. */
  lemma StepFails(ixs: Indices, env: Env, removed: set<string>, fs: seq<Final>, k: nat, e: Error)
    requires k < |fs| && Replay(ixs, env, removed, fs, k).Ok?
    ensures Replay(ixs, env, removed, fs, k + 1) == Err(e) <==> FailsAt(ixs, env, removed, fs, k, e)
  {
    var f, w := fs[k], Replay(ixs, env, removed, fs, k).value;
    assert Replay(ixs, env, removed, fs, k + 1) == Step(ixs, env, removed, w, f);
    hide Replay, EntryExact, PresentAt;
    if !f.FinalRemoveIndex? && f.index in ixs {
      ReplayExact(ixs, env, removed, fs, k, f.index, f.alias);
      PresentExactly(ixs, fs, k, Replay(ixs, env, removed, fs, k).value, f.index, f.alias);
    }
  }

  /** A batch of final actions fails with an error exactly when that is the error of the first one that fails. */
  lemma {:induction false} ReplayFails(ixs: Indices, env: Env, removed: set<string>, fs: seq<Final>, n: nat, e: Error)
    requires n <= |fs|
    ensures Replay(ixs, env, removed, fs, n) == Err(e) <==> exists k: nat :: FirstFailure(ixs, env, removed, fs, n, k, e)
    ensures Replay(ixs, env, removed, fs, n).Ok? ==> forall k: nat, d :: k < n ==> !FailsAt(ixs, env, removed, fs, k, d)
    decreases n
  {
    hide FailsAt, Step;
    if n > 0 {
      ReplayFails(ixs, env, removed, fs, n - 1, e);
      match Replay(ixs, env, removed, fs, n - 1)
      case Ok(_) =>
        StepFails(ixs, env, removed, fs, n - 1, e);
        forall d ensures Replay(ixs, env, removed, fs, n) == Err(d) <==> FailsAt(ixs, env, removed, fs, n - 1, d) {
          StepFails(ixs, env, removed, fs, n - 1, d);
        }
        if FailsAt(ixs, env, removed, fs, n - 1, e) {
          assert FirstFailure(ixs, env, removed, fs, n, n - 1, e);
        }
        if k: nat :| FirstFailure(ixs, env, removed, fs, n, k, e) {
          assert k == n - 1;
        }
        if Replay(ixs, env, removed, fs, n).Ok? {
          forall k: nat, d | k < n ensures !FailsAt(ixs, env, removed, fs, k, d) {
            if k == n - 1 {
              StepFails(ixs, env, removed, fs, k, d);
            }
          }
        }
      case Err(d) =>
        ReplayFails(ixs, env, removed, fs, n - 1, d);
        var k: nat :| FirstFailure(ixs, env, removed, fs, n - 1, k, d);
        assert FirstFailure(ixs, env, removed, fs, n, k, d);
        OneFailure(ixs, env, removed, fs, n, k, d, e);
    }
  }

  lemma OneFailure(ixs: Indices, env: Env, removed: set<string>, fs: seq<Final>, n: nat, k: nat, d: Error, e: Error)
    requires n <= |fs| && FirstFailure(ixs, env, removed, fs, n, k, d)
    ensures (exists l: nat :: FirstFailure(ixs, env, removed, fs, n, l, e)) <==> d == e
  {
    if l: nat :| FirstFailure(ixs, env, removed, fs, n, l, e) {
      assert l == k;
    }
  }

  // ---------------------------------------------------------------- the actions of a request

  /** The action names the index through one of its expressions. */
  ghost predicate NamesIndex(env: Env, a: Action, n: string) {
    exists i :: 0 <= i < |a.exprs| && env.resolve(a.exprs[i]).Some? && n in env.resolve(a.exprs[i]).value
  }

  /**
   * The action is about this alias of this index. Patterns to remove are matched against the aliases
   * that the index had before the request; names that need not exist are taken as they are.
   */
  ghost predicate Affects(ixs: Indices, env: Env, a: Action, n: string, x: string) {
    && NamesIndex(env, a, n) && n in ixs
    && match a.kind
       case Add => x in a.aliases
       case RemoveIndex => false
       case Remove => if a.mustExist == Some(false) then x in a.aliases else x in ixs[n] && Wildcard.Selected(a.aliases, x)
  }

  ghost predicate LastAffects(ixs: Indices, env: Env, actions: seq<Action>, k: nat, n: string, x: string, i: nat)
    requires k <= |actions|
  {
    i < k && Affects(ixs, env, actions[i], n, x) && forall j :: i < j < k ==> !Affects(ixs, env, actions[j], n, x)
  }

  ghost predicate NoneAffects(ixs: Indices, env: Env, actions: seq<Action>, k: nat, n: string, x: string)
    requires k <= |actions|
  {
    forall j :: 0 <= j < k ==> !Affects(ixs, env, actions[j], n, x)
  }

  /** One of the first k actions removes the index. */
  ghost predicate GoesBy(env: Env, actions: seq<Action>, k: nat, n: string)
    requires k <= |actions|
  {
    exists i :: 0 <= i < k && actions[i].kind == RemoveIndex && NamesIndex(env, actions[i], n)
  }

  ghost predicate IndexGoes(env: Env, actions: seq<Action>, n: string) { GoesBy(env, actions, |actions|, n) }

  /**
   * The tables after a committed request: the removed indices are gone, and every alias of the others is
   * that of the last action about it, or as it was when there is none.
   */
  ghost predicate Committed(ixs: Indices, env: Env, actions: seq<Action>, next: Indices) {
    && (forall n :: n in next <==> n in ixs && !IndexGoes(env, actions, n))
    && forall n, x :: n in next && n in ixs ==> AliasExact(ixs, env, actions, next, n, x)
  }

  ghost predicate AliasExact(ixs: Indices, env: Env, actions: seq<Action>, next: Indices, n: string, x: string)
    requires n in next && n in ixs
  {
    && (NoneAffects(ixs, env, actions, |actions|, n, x) ==> SameEntry(next[n], ixs[n], x))
    && forall i: nat :: LastAffects(ixs, env, actions, |actions|, n, x, i) ==>
         if actions[i].kind == Add then x in next[n] && next[n][x] == actions[i].def else x !in next[n]
  }

  lemma {:induction false} ActionIndicesNamed(ixs: Indices, env: Env, a: Action, k: nat, n: string)
    requires k <= |a.exprs| && ActionIndices(ixs, env, a, k).Ok?
    ensures n in ActionIndices(ixs, env, a, k).value
       <==> exists i :: 0 <= i < k && env.resolve(a.exprs[i]).Some? && n in env.resolve(a.exprs[i]).value
    ensures Lists.Distinct(ActionIndices(ixs, env, a, k).value)
  {
    if k > 0 {
      ActionIndicesNamed(ixs, env, a, k - 1, n);
      UnseenDiffers(ActionIndices(ixs, env, a, k - 1).value, ExprIndices(ixs, env, a.fromPath, a.exprs[k - 1]).value);
    }
  }

  lemma {:induction false} UnseenDiffers(seen: seq<string>, more: seq<string>)
    requires Lists.Distinct(seen)
    ensures Lists.Distinct(Unseen(seen, more))
  {
    if more != [] {
      UnseenDiffers(seen, more[..|more| - 1]);
    }
  }

  /** What one action is expanded to, for one alias of one index. */
  ghost predicate ExpandsTo(ixs: Indices, env: Env, a: Action, named: bool, fs: seq<Final>, n: string, x: string)
    requires n in ixs
  {
    && ((exists i :: 0 <= i < |fs| && On(fs[i], n, x)) <==>
        named && match a.kind
                 case Add => x in a.aliases
                 case RemoveIndex => false
                 case Remove => if a.mustExist == Some(false) then x in a.aliases else x in ixs[n] && Wildcard.Selected(a.aliases, x))
    && (forall i :: 0 <= i < |fs| && On(fs[i], n, x) ==>
          if a.kind == Add then fs[i] == FinalAdd(n, x, a.def) else fs[i].FinalRemove?)
    && (FinalRemoveIndex(n) in fs <==> named && a.kind == RemoveIndex)
  }

  lemma ExpandIndexExact(ixs: Indices, env: Env, a: Action, index: string, n: string, x: string)
    requires Sane(env, ixs) && index in ixs && n in ixs && ExpandIndex(ixs[index], env, a, index).Ok?
    ensures ExpandsTo(ixs, env, a, n == index, ExpandIndex(ixs[index], env, a, index).value, n, x)
  {
    var fs := ExpandIndex(ixs[index], env, a, index).value;
    match a.kind
    case Add =>
      if n == index && x in a.aliases {
        var i :| 0 <= i < |a.aliases| && a.aliases[i] == x;
        assert On(fs[i], n, x);
      }
    case RemoveIndex =>
    case Remove =>
      var names := if a.mustExist == Some(false) then a.aliases else env.listed(Existing(ixs[index], a.aliases));
      assert fs == Removes(index, names, a.mustExist);
      assert a.mustExist != Some(false) ==> ListedBy(names, Existing(ixs[index], a.aliases));
      if n == index && x in names {
        var i :| 0 <= i < |names| && names[i] == x;
        assert On(fs[i], n, x);
      }
  }

  lemma Joined(ixs: Indices, env: Env, a: Action, p: bool, q: bool, fs: seq<Final>, more: seq<Final>, n: string, x: string)
    requires n in ixs && ExpandsTo(ixs, env, a, p, fs, n, x) && ExpandsTo(ixs, env, a, q, more, n, x)
    ensures ExpandsTo(ixs, env, a, p || q, fs + more, n, x)
  {
    var all := fs + more;
    if i :| 0 <= i < |fs| && On(fs[i], n, x) {
      assert On(all[i], n, x);
    }
    if i :| 0 <= i < |more| && On(more[i], n, x) {
      assert On(all[|fs| + i], n, x);
    }
    if i :| 0 <= i < |all| && On(all[i], n, x) {
      assert if i < |fs| then On(fs[i], n, x) else On(more[i - |fs|], n, x);
    }
  }

  lemma {:induction false} ExpandIndicesExact(ixs: Indices, env: Env, a: Action, names: seq<string>, k: nat, n: string, x: string)
    requires Sane(env, ixs) && k <= |names| && (forall m :: m in names ==> m in ixs) && n in ixs && ExpandIndices(ixs, env, a, names, k).Ok?
    ensures ExpandsTo(ixs, env, a, n in names[..k], ExpandIndices(ixs, env, a, names, k).value, n, x)
    decreases k
  {
    if k > 0 {
      hide ExpandsTo, ExpandIndex, Sane;
      ExpandIndicesExact(ixs, env, a, names, k - 1, n, x);
      ExpandIndexExact(ixs, env, a, names[k - 1], n, x);
      Joined(ixs, env, a, n in names[..k - 1], n == names[k - 1], ExpandIndices(ixs, env, a, names, k - 1).value,
             ExpandIndex(ixs[names[k - 1]], env, a, names[k - 1]).value, n, x);
      assert names[..k] == names[..k - 1] + [names[k - 1]];
    }
  }

  lemma ExpandActionExact(ixs: Indices, env: Env, a: Action, n: string, x: string)
    requires Sane(env, ixs) && n in ixs && ExpandAction(ixs, env, a).Ok?
    ensures ExpandsTo(ixs, env, a, NamesIndex(env, a, n), ExpandAction(ixs, env, a).value, n, x)
  {
    hide ExpandsTo;
    var names := ActionIndices(ixs, env, a, |a.exprs|).value;
    ActionIndicesNamed(ixs, env, a, |a.exprs|, n);
    ActionIndicesExist(ixs, env, a, |a.exprs|);
    ExpandIndicesExact(ixs, env, a, names, |names|, n, x);
    assert names[..|names|] == names;
  }

  /** The last final action about an alias is one of the last action about it. */
  ghost predicate Corresponds(ixs: Indices, env: Env, actions: seq<Action>, k: nat, fs: seq<Final>, n: string, x: string)
    requires k <= |actions|
  {
    && (NoneAffects(ixs, env, actions, k, n, x) <==> NoneOn(fs, |fs|, n, x))
    && (forall i: nat, j: nat :: LastAffects(ixs, env, actions, k, n, x, i) && LastOn(fs, |fs|, n, x, j) ==>
          if actions[i].kind == Add then fs[j] == FinalAdd(n, x, actions[i].def) else fs[j].FinalRemove?)
    && (FinalRemoveIndex(n) in fs <==> GoesBy(env, actions, k, n))
  }

  lemma {:induction false} ExpandExact(ixs: Indices, env: Env, actions: seq<Action>, k: nat, n: string, x: string)
    requires Sane(env, ixs) && k <= |actions| && n in ixs && Expand(ixs, env, actions, k).Ok?
    ensures Corresponds(ixs, env, actions, k, Expand(ixs, env, actions, k).value, n, x)
    decreases k
  {
    if k > 0 {
      hide ExpandAction, Sane;
      ExpandExact(ixs, env, actions, k - 1, n, x);
      ExpandActionExact(ixs, env, actions[k - 1], n, x);
      hide Expand;
      OneMoreAction(ixs, env, actions, k, Expand(ixs, env, actions, k - 1).value, ExpandAction(ixs, env, actions[k - 1]).value, n, x);
    }
  }

  lemma OneMoreAction(ixs: Indices, env: Env, actions: seq<Action>, k: nat, fs: seq<Final>, more: seq<Final>, n: string, x: string)
    requires 0 < k <= |actions| && n in ixs && Corresponds(ixs, env, actions, k - 1, fs, n, x)
    requires ExpandsTo(ixs, env, actions[k - 1], NamesIndex(env, actions[k - 1], n), more, n, x)
    ensures Corresponds(ixs, env, actions, k, fs + more, n, x)
  {
    var all, a := fs + more, actions[k - 1];
    assert Affects(ixs, env, a, n, x) <==> exists i :: 0 <= i < |more| && On(more[i], n, x);
    AffectsNext(ixs, env, actions, k, n, x);
    GoesNext(env, actions, k, n);
    hide GoesBy;
    hide NamesIndex, Affects, LastAffects, NoneAffects, On, LastOn, NoneOn;
    if Affects(ixs, env, a, n, x) {
      JoinedMore(fs, more, n, x);
    } else {
      JoinedNone(fs, more, n, x);
      assert forall j: nat :: LastOn(all, |all|, n, x, j) ==> fs[j] == all[j];
    }
  }

  lemma GoesNext(env: Env, actions: seq<Action>, k: nat, n: string)
    requires 0 < k <= |actions|
    ensures GoesBy(env, actions, k, n) <==> GoesBy(env, actions, k - 1, n) || (actions[k - 1].kind == RemoveIndex && NamesIndex(env, actions[k - 1], n))
  {
    hide NamesIndex;
  }

  lemma AffectsNext(ixs: Indices, env: Env, actions: seq<Action>, k: nat, n: string, x: string)
    requires 0 < k <= |actions|
    ensures if Affects(ixs, env, actions[k - 1], n, x)
            then !NoneAffects(ixs, env, actions, k, n, x) && forall i: nat :: LastAffects(ixs, env, actions, k, n, x, i) <==> i == k - 1
            else (NoneAffects(ixs, env, actions, k, n, x) <==> NoneAffects(ixs, env, actions, k - 1, n, x))
                 && forall i: nat :: LastAffects(ixs, env, actions, k, n, x, i) <==> LastAffects(ixs, env, actions, k - 1, n, x, i)
  {
    hide Affects;
  }

  lemma JoinedMore(fs: seq<Final>, more: seq<Final>, n: string, x: string)
    requires exists i :: 0 <= i < |more| && On(more[i], n, x)
    ensures var all := fs + more;
            !NoneOn(all, |all|, n, x)
            && forall j: nat :: LastOn(all, |all|, n, x, j) ==> j >= |fs| && On(more[j - |fs|], n, x) && all[j] == more[j - |fs|]
  {
    hide On;
    var all := fs + more;
    var i :| 0 <= i < |more| && On(more[i], n, x);
    assert On(all[|fs| + i], n, x);
  }

  lemma JoinedNone(fs: seq<Final>, more: seq<Final>, n: string, x: string)
    requires forall i :: 0 <= i < |more| ==> !On(more[i], n, x)
    ensures var all := fs + more;
            (NoneOn(all, |all|, n, x) <==> NoneOn(fs, |fs|, n, x))
            && forall j: nat :: LastOn(all, |all|, n, x, j) ==> LastOn(fs, |fs|, n, x, j) && all[j] == fs[j]
  {
    hide On;
    var all := fs + more;
    forall l | 0 <= l < |all| ensures On(all[l], n, x) ==> l < |fs| {
      assert l >= |fs| ==> all[l] == more[l - |fs|];
    }
    forall l | 0 <= l < |fs| ensures all[l] == fs[l] {
    }
  }

  // ---------------------------------------------------------------- requests that are refused

  /** Why an index expression is refused. */
  ghost predicate ExprFails(ixs: Indices, env: Env, fromPath: bool, expr: string, e: Error) {
    if !fromPath && ',' in expr then e == IndexNotFound
    else if expr !in ixs && !Pattern(expr) && IsAlias(ixs, expr) then e == MatchesAlias
    else if env.resolve(expr) == None then e == Unresolved
    else env.resolve(expr) == Some([]) && e == IndexNotFound
  }

  predicate Pattern(expr: string) { expr == "_all" || '*' in expr || '?' in expr }

  ghost predicate ExprsFail(ixs: Indices, env: Env, a: Action, n: nat, e: Error)
    requires n <= |a.exprs|
  {
    exists i: nat :: FirstExprFails(ixs, env, a, n, i, e)
  }

  ghost predicate FirstExprFails(ixs: Indices, env: Env, a: Action, n: nat, i: nat, e: Error)
    requires n <= |a.exprs|
  {
    && i < n && ExprFails(ixs, env, a.fromPath, a.exprs[i], e)
    && forall j: nat, d :: j < i ==> !ExprFails(ixs, env, a.fromPath, a.exprs[j], d)
  }

  /** Something to remove that must exist is not on one of the indices. */
  ghost predicate SomethingMissing(ixs: Indices, env: Env, a: Action) {
    && a.kind == Remove && a.mustExist.Some? && a.mustExist != Some(false)
    && exists n :: n in ixs && NamesIndex(env, a, n) && !AllFound(ixs[n], a.aliases)
  }

  /** Why an action cannot be expanded. */
  ghost predicate ActionFails(ixs: Indices, env: Env, a: Action, e: Error) {
    || (a.exprs == [] && e == NoIndices)
    || ExprsFail(ixs, env, a, |a.exprs|, e)
    || ((forall d :: !ExprsFail(ixs, env, a, |a.exprs|, d)) && a.exprs != [] && SomethingMissing(ixs, env, a) && e == AliasesNotFound)
  }

  lemma ExprFailsExactly(ixs: Indices, env: Env, fromPath: bool, expr: string, e: Error)
    ensures ExprIndices(ixs, env, fromPath, expr) == Err(e) <==> ExprFails(ixs, env, fromPath, expr, e)
    ensures ExprIndices(ixs, env, fromPath, expr).Ok? ==> forall d :: !ExprFails(ixs, env, fromPath, expr, d)
  {
  }

  lemma {:induction false} ExprsFailExactly(ixs: Indices, env: Env, a: Action, n: nat, e: Error)
    requires n <= |a.exprs|
    ensures ActionIndices(ixs, env, a, n) == Err(e) <==> ExprsFail(ixs, env, a, n, e)
    ensures ActionIndices(ixs, env, a, n).Ok? ==> forall i: nat, d :: i < n ==> !ExprFails(ixs, env, a.fromPath, a.exprs[i], d)
    decreases n
  {
    if n > 0 {
      ExprsFailExactly(ixs, env, a, n - 1, e);
      match ActionIndices(ixs, env, a, n - 1)
      case Ok(_) =>
        ExprFailsExactly(ixs, env, a.fromPath, a.exprs[n - 1], e);
        hide ExprFails, ExprIndices;
        ExprsNext(ixs, env, a, n, e);
      case Err(d) =>
        ExprsFailExactly(ixs, env, a, n - 1, d);
        hide ExprFails, ExprIndices;
        ExprsStay(ixs, env, a, n, d, e);
    }
  }

  lemma ExprsNext(ixs: Indices, env: Env, a: Action, n: nat, e: Error)
    requires 0 < n <= |a.exprs| && forall i: nat, d :: i < n - 1 ==> !ExprFails(ixs, env, a.fromPath, a.exprs[i], d)
    ensures ExprsFail(ixs, env, a, n, e) <==> ExprFails(ixs, env, a.fromPath, a.exprs[n - 1], e)
  {
    hide ExprFails;
    if ExprFails(ixs, env, a.fromPath, a.exprs[n - 1], e) {
      assert FirstExprFails(ixs, env, a, n, n - 1, e);
    }
  }

  lemma ExprsStay(ixs: Indices, env: Env, a: Action, n: nat, d: Error, e: Error)
    requires 0 < n <= |a.exprs| && ExprsFail(ixs, env, a, n - 1, d)
    ensures ExprsFail(ixs, env, a, n, e) <==> d == e
  {
    hide ExprFails;
    var k: nat :| FirstExprFails(ixs, env, a, n - 1, k, d);
    OneError(ixs, env, a.fromPath, a.exprs[k], d, e);
    if d == e {
      assert FirstExprFails(ixs, env, a, n, k, e);
    }
    if l: nat :| FirstExprFails(ixs, env, a, n, l, e) {
      assert l == k;
    }
  }

  lemma OneError(ixs: Indices, env: Env, fromPath: bool, expr: string, d: Error, e: Error)
    requires ExprFails(ixs, env, fromPath, expr, d)
    ensures ExprFails(ixs, env, fromPath, expr, e) <==> d == e
  {
  }

  lemma {:induction false} ExpandIndicesFail(ixs: Indices, env: Env, a: Action, names: seq<string>, k: nat)
    requires k <= |names| && forall m :: m in names ==> m in ixs
    ensures var r := ExpandIndices(ixs, env, a, names, k);
            if a.kind == Remove && a.mustExist.Some? && a.mustExist != Some(false) && exists i :: 0 <= i < k && !AllFound(ixs[names[i]], a.aliases)
            then r == Err(AliasesNotFound) else r.Ok?
    decreases k
  {
    hide AllFound;
    if k > 0 {
      ExpandIndicesFail(ixs, env, a, names, k - 1);
    }
  }

  /** An action cannot be expanded, with an error, exactly when the description says so. */
  lemma ActionFailsExactly(ixs: Indices, env: Env, a: Action, e: Error)
    requires Sane(env, ixs)
    ensures ExpandAction(ixs, env, a) == Err(e) <==> ActionFails(ixs, env, a, e)
  {
    hide AllFound, ExprFails;
    forall d ensures ActionIndices(ixs, env, a, |a.exprs|) == Err(d) <==> ExprsFail(ixs, env, a, |a.exprs|, d) {
      ExprsFailExactly(ixs, env, a, |a.exprs|, d);
    }
    if a.exprs != [] && ActionIndices(ixs, env, a, |a.exprs|).Ok? {
      var names := ActionIndices(ixs, env, a, |a.exprs|).value;
      ActionIndicesExist(ixs, env, a, |a.exprs|);
      ExpandIndicesFail(ixs, env, a, names, |names|);
      forall n ensures n in names <==> NamesIndex(env, a, n) {
        ActionIndicesNamed(ixs, env, a, |a.exprs|, n);
      }
      MissingByName(ixs, env, a, names);
    }
  }

  lemma MissingByName(ixs: Indices, env: Env, a: Action, names: seq<string>)
    requires (forall n :: n in names <==> NamesIndex(env, a, n)) && forall n :: n in names ==> n in ixs
    ensures (exists i :: 0 <= i < |names| && !AllFound(ixs[names[i]], a.aliases))
            <==> exists n :: n in ixs && NamesIndex(env, a, n) && !AllFound(ixs[n], a.aliases)
  {
    hide NamesIndex, AllFound;
    if n :| n in ixs && NamesIndex(env, a, n) && !AllFound(ixs[n], a.aliases) {
      var i :| 0 <= i < |names| && names[i] == n;
      assert !AllFound(ixs[names[i]], a.aliases);
    }
    if i :| 0 <= i < |names| && !AllFound(ixs[names[i]], a.aliases) {
      var n := names[i];
      assert n in names && NamesIndex(env, a, n);
    }
  }

  ghost predicate FirstActionFails(ixs: Indices, env: Env, actions: seq<Action>, n: nat, k: nat, e: Error)
    requires n <= |actions|
  {
    k < n && ActionFails(ixs, env, actions[k], e) && forall j: nat, d :: j < k ==> !ActionFails(ixs, env, actions[j], d)
  }

  /** A request cannot be expanded, with an error, exactly when that is the error of its first action that cannot. */
  lemma {:induction false} ExpandFails(ixs: Indices, env: Env, actions: seq<Action>, n: nat, e: Error)
    requires Sane(env, ixs) && n <= |actions|
    ensures Expand(ixs, env, actions, n) == Err(e) <==> exists k: nat :: FirstActionFails(ixs, env, actions, n, k, e)
    ensures Expand(ixs, env, actions, n).Ok? ==> forall k: nat, d :: k < n ==> !ActionFails(ixs, env, actions[k], d)
    decreases n
  {
    hide ActionFails, ExpandAction, Sane;
    if n > 0 {
      ExpandFails(ixs, env, actions, n - 1, e);
      match Expand(ixs, env, actions, n - 1)
      case Ok(_) =>
        forall d ensures ExpandAction(ixs, env, actions[n - 1]) == Err(d) <==> ActionFails(ixs, env, actions[n - 1], d) {
          ActionFailsExactly(ixs, env, actions[n - 1], d);
        }
        if ActionFails(ixs, env, actions[n - 1], e) {
          assert FirstActionFails(ixs, env, actions, n, n - 1, e);
        }
        if k: nat :| FirstActionFails(ixs, env, actions, n, k, e) {
          assert k == n - 1;
        }
        if Expand(ixs, env, actions, n).Ok? {
          forall k: nat, d | k < n ensures !ActionFails(ixs, env, actions[k], d) {
            if k == n - 1 {
              ActionFailsExactly(ixs, env, actions[k], d);
            }
          }
        }
      case Err(d) =>
        ExpandFails(ixs, env, actions, n - 1, d);
        var k: nat :| FirstActionFails(ixs, env, actions, n - 1, k, d);
        ActionFailsExactly(ixs, env, actions[k], d);
        ActionFailsExactly(ixs, env, actions[k], e);
        OneActionFails(ixs, env, actions, n, k, d, e);
    }
  }

  lemma OneActionFails(ixs: Indices, env: Env, actions: seq<Action>, n: nat, k: nat, d: Error, e: Error)
    requires n <= |actions| && FirstActionFails(ixs, env, actions, n, k, d)
    requires ActionFails(ixs, env, actions[k], e) <==> d == e
    ensures (exists l: nat :: FirstActionFails(ixs, env, actions, n, l, e)) <==> d == e
  {
    hide ActionFails;
    if d == e {
      assert FirstActionFails(ixs, env, actions, n, k, e);
    }
    if l: nat :| FirstActionFails(ixs, env, actions, n, l, e) {
      assert l == k;
    }
  }

  /** The error of the first action that cannot be expanded. */
  ghost predicate ActionError(ixs: Indices, env: Env, actions: seq<Action>, e: Error) {
    exists k: nat :: FirstActionFails(ixs, env, actions, |actions|, k, e)
  }

  /** The error of the first final action that fails. */
  ghost predicate FinalError(ixs: Indices, env: Env, fs: seq<Final>, e: Error) {
    exists k: nat :: FirstFailure(ixs, env, Removed(fs), fs, |fs|, k, e)
  }

  /** Why a request is refused before its tables are validated. */
  ghost predicate Refused(ixs: Indices, env: Env, actions: seq<Action>, e: Error)
    requires Sane(env, ixs)
  {
    if env.blocked(Named(ixs, actions)) then e == Blocked
    else if exists d :: ActionError(ixs, env, actions, d) then ActionError(ixs, env, actions, e)
    else
      var fs := Expand(ixs, env, actions, |actions|);
      fs.Ok? && if fs.value == [] then e == AliasesNotFound else FinalError(ixs, env, fs.value, e)
  }

  lemma PlanFails(ixs: Indices, env: Env, actions: seq<Action>, e: Error)
    requires Sane(env, ixs)
    ensures Planned(ixs, env, actions) == Err(e) <==> Refused(ixs, env, actions, e)
  {
    hide Expand, Replay, Removed, Named, Sane, FirstActionFails, FirstFailure;
    forall d ensures Expand(ixs, env, actions, |actions|) == Err(d) <==> ActionError(ixs, env, actions, d) {
      ExpandFails(ixs, env, actions, |actions|, d);
    }
    var expanded := Expand(ixs, env, actions, |actions|);
    match expanded
    case Err(d) =>
      assert ActionError(ixs, env, actions, d);
    case Ok(fs) =>
      ReplayFails(ixs, env, Removed(fs), fs, |fs|, e);
      assert Replay(ixs, env, Removed(fs), fs, |fs|) == Err(e) <==> FinalError(ixs, env, fs, e);
      assert forall d :: !ActionError(ixs, env, actions, d);
  }

  /** A plan that is not refused is what the request means. */
  lemma PlanMeans(ixs: Indices, env: Env, actions: seq<Action>)
    requires Sane(env, ixs) && Planned(ixs, env, actions).Ok?
    ensures Committed(ixs, env, actions, Planned(ixs, env, actions).value)
  {
    hide Replay, Expand;
    var fs := Expand(ixs, env, actions, |actions|).value;
    var w := Replay(ixs, env, Removed(fs), fs, |fs|).value;
    var next := Planned(ixs, env, actions).value;
    forall n ensures n in next <==> n in ixs && !IndexGoes(env, actions, n) {
      if n in ixs {
        ExpandExact(ixs, env, actions, |actions|, n, "");
        RemovedExactly(fs, n);
      }
    }
    forall n, x | n in next && n in ixs ensures AliasExact(ixs, env, actions, next, n, x) {
      ExpandExact(ixs, env, actions, |actions|, n, x);
      ReplayExact(ixs, env, Removed(fs), fs, |fs|, n, x);
      assert next[n] == w[n];
      EntryMeans(ixs, env, actions, fs, w, next, n, x);
    }
  }

  lemma RemovedExactly(fs: seq<Final>, n: string)
    ensures n in Removed(fs) <==> FinalRemoveIndex(n) in fs
  {
  }

  lemma EntryMeans(ixs: Indices, env: Env, actions: seq<Action>, fs: seq<Final>, w: Indices, next: Indices, n: string, x: string)
    requires n in ixs && n in w && n in next && next[n] == w[n]
    requires Corresponds(ixs, env, actions, |actions|, fs, n, x) && EntryExact(ixs, fs, |fs|, w, n, x)
    ensures AliasExact(ixs, env, actions, next, n, x)
  {
    hide Affects, On;
    if !NoneOn(fs, |fs|, n, x) {
      var j := LastOnExists(fs, |fs|, n, x);
    }
  }
}

/**
 * Alias metadata, internal/engine/alias.go and the index lifecycle of internal/engine/cluster.go:
 * batches of alias actions, aliases of new indices, and the index an alias writes to.
 *
 * An index is its table of aliases. What the requests ask other code (expression resolution, name
 * and filter checks, blocks, the order of sorted names) is a parameter, `Env`.
 */
module Aliases {
  import Lists
  import opened Options
  import Wildcard

  /** The flags the validation looks at; `rest` stands for the filter and the routings. */
  datatype Alias = Alias(isWrite: Option<bool>, hidden: Option<bool>, rest: string)

  type Table = map<string, Alias>
  type Indices = map<string, Table>

  datatype Error =
    | Blocked | InvalidIndexName | NoIndices | MatchesAlias | Unresolved | IndexNotFound | IndexExists | AliasesNotFound
    | InvalidAlias | NameIsIndex | NameIsAlias | InvalidFilter | RequiredAliasMissing | NoWriteIndex
    | TwoWriteIndices(alias: string) | MixedHidden(alias: string)

  datatype Result<T> = Ok(value: T) | Err(error: Error)

  datatype Env = Env(
    resolve: string -> Option<seq<string>>,        // an expression to concrete indices
    listed: set<string> -> seq<string>,            // sort.Strings
    validName: (string, Alias) -> bool,            // of an alias
    validFilter: (string, string, Alias) -> bool,  // on an index
    blocked: set<string> -> bool,
    validIndexName: string -> bool,
    filled: (string, string) -> string)            // {index} replaced in a template alias

  ghost predicate ListedBy(s: seq<string>, names: set<string>) {
    && (forall n :: n in s <==> n in names)
    && Lists.Distinct(s)
  }

  /** Expressions resolve to indices that exist. */
  ghost predicate Sane(env: Env, ixs: Indices) {
    && (forall names :: ListedBy(env.listed(names), names))
    && forall e, n :: env.resolve(e).Some? && n in env.resolve(e).value ==> n in ixs
  }

  // ---------------------------------------------------------------- the invariant

  ghost predicate Has(ixs: Indices, n: string, alias: string) { n in ixs && alias in ixs[n] }

  predicate Writes(a: Alias) { a.isWrite == Some(true) }

  predicate Hides(a: Alias) { a.hidden == Some(true) }

  ghost predicate OneWriteIndex(ixs: Indices, alias: string) {
    forall m, n :: Has(ixs, m, alias) && Has(ixs, n, alias) && ixs[m][alias].isWrite == ixs[n][alias].isWrite == Some(true) ==> m == n
  }

  ghost predicate SameHidden(ixs: Indices, alias: string) {
    forall m, n :: Has(ixs, m, alias) && Has(ixs, n, alias) ==> (ixs[m][alias].hidden == Some(true) <==> ixs[n][alias].hidden == Some(true))
  }

  ghost predicate GoodAlias(ixs: Indices, alias: string) { OneWriteIndex(ixs, alias) && SameHidden(ixs, alias) }

  /** Every alias has at most one write index and is hidden on all of its indices or on none. */
  ghost predicate Consistent(ixs: Indices) { forall alias :: GoodAlias(ixs, alias) }

  /** No alias is named like an index. */
  ghost predicate Disjoint(ixs: Indices) { forall m, n :: n in ixs ==> !Has(ixs, m, n) }

  // ---------------------------------------------------------------- expanding a request

  datatype Kind = Add | Remove | RemoveIndex

  /** exprs: the index expressions, split at commas when they come from the path. */
  datatype Action = Action(kind: Kind, exprs: seq<string>, aliases: seq<string>, def: Alias, mustExist: Option<bool>, fromPath: bool)

  datatype Final =
    | FinalAdd(index: string, alias: string, def: Alias)
    | FinalRemove(index: string, alias: string, mustExist: Option<bool>)
    | FinalRemoveIndex(index: string)

  ghost predicate IsAlias(ixs: Indices, name: string) { exists n :: Has(ixs, n, name) }

  /** The indices of one expression. */
  ghost function ExprIndices(ixs: Indices, env: Env, fromPath: bool, expr: string): (r: Result<seq<string>>) {
    if !fromPath && ',' in expr then Err(IndexNotFound)
    else if expr !in ixs && '*' !in expr && '?' !in expr && expr != "_all" && IsAlias(ixs, expr) then Err(MatchesAlias)
    else
      match env.resolve(expr)
      case None => Err(Unresolved)
      case Some(names) => if names == [] then Err(IndexNotFound) else Ok(names)
  }

  /** The names of `more` that are not in `seen`, once each. */
  function Unseen(seen: seq<string>, more: seq<string>): (out: seq<string>)
    ensures seen <= out
    ensures forall n :: n in out <==> n in seen || n in more
  {
    if more == [] then seen
    else
      var out := Unseen(seen, more[..|more| - 1]);
      var n := more[|more| - 1];
      if n in out then out else out + [n]
  }

  /** aliasActionIndices over the first k expressions. */
  ghost function ActionIndices(ixs: Indices, env: Env, a: Action, k: nat): (r: Result<seq<string>>)
    requires k <= |a.exprs|
  {
    if k == 0 then Ok([])
    else
      match ActionIndices(ixs, env, a, k - 1)
      case Err(e) => Err(e)
      case Ok(out) =>
        match ExprIndices(ixs, env, a.fromPath, a.exprs[k - 1])
        case Err(e) => Err(e)
        case Ok(names) => Ok(Unseen(out, names))
  }

  /** Every requested name or pattern has an alias on the index. */
  ghost predicate AllFound(table: Table, patterns: seq<string>) {
    forall i :: 0 <= i < |patterns| ==> Found(table, patterns[i])
  }

  ghost predicate Found(table: Table, p: string) {
    exists an :: an in table && (p == "_all" || Wildcard.Matches(p, an))
  }

  ghost function Existing(table: Table, patterns: seq<string>): set<string> {
    set an | an in table && Wildcard.Selected(patterns, an)
  }

  function Adds(index: string, aliases: seq<string>, def: Alias): (fs: seq<Final>)
    ensures |fs| == |aliases| && forall i :: 0 <= i < |fs| ==> fs[i] == FinalAdd(index, aliases[i], def)
  {
    seq(|aliases|, i requires 0 <= i < |aliases| => FinalAdd(index, aliases[i], def))
  }

  function Removes(index: string, aliases: seq<string>, mustExist: Option<bool>): (fs: seq<Final>)
    ensures |fs| == |aliases| && forall i :: 0 <= i < |fs| ==> fs[i] == FinalRemove(index, aliases[i], mustExist)
  {
    seq(|aliases|, i requires 0 <= i < |aliases| => FinalRemove(index, aliases[i], mustExist))
  }

  /** What an action means for one of its indices. */
  ghost function ExpandIndex(table: Table, env: Env, a: Action, index: string): (r: Result<seq<Final>>) {
    match a.kind
    case Add => Ok(Adds(index, a.aliases, a.def))
    case RemoveIndex => Ok([FinalRemoveIndex(index)])
    case Remove =>
      if a.mustExist == Some(false) then Ok(Removes(index, a.aliases, a.mustExist))
      else if a.mustExist.Some? && !AllFound(table, a.aliases) then Err(AliasesNotFound)
      else Ok(Removes(index, env.listed(Existing(table, a.aliases)), a.mustExist))
  }

  ghost function ExpandIndices(ixs: Indices, env: Env, a: Action, names: seq<string>, k: nat): (r: Result<seq<Final>>)
    requires k <= |names| && forall n :: n in names ==> n in ixs
  {
    if k == 0 then Ok([])
    else
      match ExpandIndices(ixs, env, a, names, k - 1)
      case Err(e) => Err(e)
      case Ok(fs) =>
        match ExpandIndex(ixs[names[k - 1]], env, a, names[k - 1])
        case Err(e) => Err(e)
        case Ok(more) => Ok(fs + more)
  }

  lemma {:induction false} ActionIndicesExist(ixs: Indices, env: Env, a: Action, k: nat)
    requires Sane(env, ixs) && k <= |a.exprs| && ActionIndices(ixs, env, a, k).Ok?
    ensures forall n :: n in ActionIndices(ixs, env, a, k).value ==> n in ixs
  {
    if k > 0 {
      ActionIndicesExist(ixs, env, a, k - 1);
    }
  }

  /** The final actions of a single action. */
  ghost function ExpandAction(ixs: Indices, env: Env, a: Action): (r: Result<seq<Final>>)
    requires Sane(env, ixs)
  {
    if a.exprs == [] then Err(NoIndices)
    else
      match ActionIndices(ixs, env, a, |a.exprs|)
      case Err(e) => Err(e)
      case Ok(names) =>
        ActionIndicesExist(ixs, env, a, |a.exprs|);
        ExpandIndices(ixs, env, a, names, |names|)
  }

  /** The final actions of the first k actions. */
  ghost function Expand(ixs: Indices, env: Env, actions: seq<Action>, k: nat): (r: Result<seq<Final>>)
    requires Sane(env, ixs) && k <= |actions|
  {
    if k == 0 then Ok([])
    else
      match Expand(ixs, env, actions, k - 1)
      case Err(e) => Err(e)
      case Ok(fs) =>
        match ExpandAction(ixs, env, actions[k - 1])
        case Err(e) => Err(e)
        case Ok(more) => Ok(fs + more)
  }

  // ---------------------------------------------------------------- the meaning of a batch

  function Removed(fs: seq<Final>): (r: set<string>) {
    set f | f in fs && f.FinalRemoveIndex? :: f.index
  }

  /** One final action on a copy of all alias tables; indices are removed in the end. */
  function Step(ixs: Indices, env: Env, removed: set<string>, w: Indices, f: Final): (r: Result<Indices>)
    requires w.Keys == ixs.Keys
    ensures r.Ok? ==> r.value.Keys == ixs.Keys
  {
    if f.FinalRemoveIndex? then Ok(w)
    else if f.index !in ixs || f.index in removed then Err(IndexNotFound)
    else
      match f
      case FinalAdd(n, alias, def) =>
        if !env.validName(alias, def) then Err(InvalidAlias)
        else if alias in ixs && alias !in removed then Err(NameIsIndex)
        else if !env.validFilter(n, alias, def) then Err(InvalidFilter)
        else Ok(w[n := w[n][alias := def]])
      case FinalRemove(n, alias, mustExist) =>
        if alias in w[n] then Ok(w[n := w[n] - {alias}])
        else if mustExist == Some(true) then Err(RequiredAliasMissing)
        else Ok(w)
  }

  function Replay(ixs: Indices, env: Env, removed: set<string>, fs: seq<Final>, k: nat): (r: Result<Indices>)
    requires k <= |fs|
    ensures r.Ok? ==> r.value.Keys == ixs.Keys
  {
    if k == 0 then Ok(ixs)
    else
      match Replay(ixs, env, removed, fs, k - 1)
      case Err(e) => Err(e)
      case Ok(w) => Step(ixs, env, removed, w, fs[k - 1])
  }

  /** The indices that expressions of the request name. */
  function Named(ixs: Indices, actions: seq<Action>): set<string> {
    set a, e | a in actions && e in a.exprs && e in ixs :: e
  }

  /** The tables the batch asks for, before they are validated. */
  ghost function Planned(ixs: Indices, env: Env, actions: seq<Action>): (r: Result<Indices>)
    requires Sane(env, ixs)
  {
    if env.blocked(Named(ixs, actions)) then Err(Blocked)
    else
      match Expand(ixs, env, actions, |actions|)
      case Err(e) => Err(e)
      case Ok(fs) =>
        if fs == [] then Err(AliasesNotFound)
        else
          match Replay(ixs, env, Removed(fs), fs, |fs|)
          case Err(e) => Err(e)
          case Ok(w) => Ok(w - Removed(fs))
  }

  /** All of the batch or nothing: the tables after a request. */
  ghost function Updated(ixs: Indices, env: Env, actions: seq<Action>): Indices
    requires Sane(env, ixs)
  {
    match Planned(ixs, env, actions)
    case Err(_) => ixs
    case Ok(next) => if Consistent(next) then next else ixs
  }

  // ---------------------------------------------------------------- why validating the added aliases is enough

  /** The aliases the actions add somewhere. */
  function Touched(fs: seq<Final>, k: nat): set<string>
    requires k <= |fs|
  {
    set f | f in fs[..k] && f.FinalAdd? :: f.alias
  }

  /** Outside of the touched aliases, w has nothing that ixs does not have. */
  ghost predicate OnlyLess(ixs: Indices, w: Indices, touched: set<string>) {
    forall n, alias :: Has(w, n, alias) && alias !in touched ==> Has(ixs, n, alias) && w[n][alias] == ixs[n][alias]
  }

  lemma {:induction false} ReplayOnlyLess(ixs: Indices, env: Env, removed: set<string>, fs: seq<Final>, k: nat)
    requires k <= |fs| && Replay(ixs, env, removed, fs, k).Ok?
    ensures OnlyLess(ixs, Replay(ixs, env, removed, fs, k).value, Touched(fs, k))
  {
    if k > 0 {
      ReplayOnlyLess(ixs, env, removed, fs, k - 1);
      assert fs[..k] == fs[..k - 1] + [fs[k - 1]];
      var f := fs[k - 1];
      if f.FinalAdd? {
        assert f in fs[..k];
      }
    }
  }

  lemma LessIsGood(ixs: Indices, w: Indices, touched: set<string>, removed: set<string>, alias: string)
    requires OnlyLess(ixs, w, touched) && GoodAlias(ixs, alias) && alias !in touched
    ensures GoodAlias(w - removed, alias)
  {
    var next := w - removed;
    forall m, n | Has(next, m, alias) && Has(next, n, alias)
      ensures Hides(next[m][alias]) == Hides(next[n][alias])
      ensures Writes(next[m][alias]) && Writes(next[n][alias]) ==> m == n
    {
      assert Has(w, m, alias) && Has(w, n, alias);
    }
  }

  /** From a consistent state, the result is consistent when the added aliases are. */
  lemma TouchedSuffice(ixs: Indices, env: Env, fs: seq<Final>)
    requires Consistent(ixs) && Replay(ixs, env, Removed(fs), fs, |fs|).Ok?
    ensures var next := Replay(ixs, env, Removed(fs), fs, |fs|).value - Removed(fs);
            Consistent(next) <==> forall alias :: alias in Touched(fs, |fs|) ==> GoodAlias(next, alias)
  {
    ReplayOnlyLess(ixs, env, Removed(fs), fs, |fs|);
    var w := Replay(ixs, env, Removed(fs), fs, |fs|).value;
    forall alias | alias !in Touched(fs, |fs|) ensures GoodAlias(w - Removed(fs), alias) {
      LessIsGood(ixs, w, Touched(fs, |fs|), Removed(fs), alias);
    }
  }

  /** An added alias is not named like an index that stays. */
  lemma {:induction false} AddedNames(ixs: Indices, env: Env, removed: set<string>, fs: seq<Final>, k: nat)
    requires k <= |fs| && Replay(ixs, env, removed, fs, k).Ok?
    ensures forall alias :: alias in Touched(fs, k) && alias in ixs ==> alias in removed
  {
    if k > 0 {
      AddedNames(ixs, env, removed, fs, k - 1);
      assert fs[..k] == fs[..k - 1] + [fs[k - 1]];
    }
  }

  lemma PlannedDisjoint(ixs: Indices, env: Env, actions: seq<Action>)
    requires Sane(env, ixs) && Disjoint(ixs) && Planned(ixs, env, actions).Ok?
    ensures Disjoint(Planned(ixs, env, actions).value)
  {
    var fs := Expand(ixs, env, actions, |actions|).value;
    var w := Replay(ixs, env, Removed(fs), fs, |fs|).value;
    ReplayOnlyLess(ixs, env, Removed(fs), fs, |fs|);
    AddedNames(ixs, env, Removed(fs), fs, |fs|);
    var next := w - Removed(fs);
    forall m, n | n in next ensures !Has(next, m, n) {
      assert n in ixs && !Has(ixs, m, n);
      assert Has(next, m, n) ==> Has(w, m, n);
    }
  }

  // ---------------------------------------------------------------- helpers of the operations

  /** The tables with those of the work copy in place. */
  function Overlay(ixs: Indices, work: Indices): (w: Indices)
    ensures w.Keys == ixs.Keys
  {
    map n | n in ixs :: if n in work then work[n] else ixs[n]
  }

  ghost function Bearers(ixs: Indices, alias: string): set<string> {
    set n | n in ixs && alias in ixs[n]
  }

  /** The error names an alias that the tables would break. */
  ghost predicate Blames(next: Indices, e: Error) {
    match e
    case TwoWriteIndices(alias) => !OneWriteIndex(next, alias)
    case MixedHidden(alias) => !SameHidden(next, alias)
    case _ => false
  }

  lemma TargetsTell(ixs: Indices, alias: string, targets: seq<string>)
    requires ListedBy(targets, Bearers(ixs, alias))
    ensures |targets| > 0 <==> IsAlias(ixs, alias)
    ensures forall k :: 0 <= k < |targets| ==> Has(ixs, targets[k], alias)
  {
    forall k | 0 <= k < |targets| ensures Has(ixs, targets[k], alias) {
      assert targets[k] in Bearers(ixs, alias);
    }
    if |targets| > 0 {
      assert Has(ixs, targets[0], alias);
    }
    if IsAlias(ixs, alias) {
      var n :| Has(ixs, n, alias);
      assert n in targets;
    }
  }
}

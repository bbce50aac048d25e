/**
 * The cluster operations that write alias metadata: applyAliasActions with its work copy, index
 * creation with aliases, index deletion, and the index a write to an alias goes to.
 */
module AliasCluster {
  import opened AliasLifecycle
  import opened Aliases
  import opened AliasMeaning
  import opened Lists
  import opened Options
  import Wildcard

  class Cluster {
    var indices: Indices

    // ---------------------------------------------------------------- update aliases

    /** The indices that have an alias, in any order. */
    method AliasTargets(alias: string) returns (out: seq<string>)
      ensures ListedBy(out, Bearers(indices, alias))
    {
      out := [];
      var left := indices.Keys;
      while left != {}
        invariant left <= indices.Keys
        invariant ListedBy(out, Bearers(indices, alias) - left)
        decreases |left|
      {
        var n :| n in left;
        if alias in indices[n] {
          ListsOneMore(out, Bearers(indices, alias) - left, n);
          assert Bearers(indices, alias) - (left - {n}) == Bearers(indices, alias) - left + {n};
          out := out + [n];
        } else {
          assert Bearers(indices, alias) - (left - {n}) == Bearers(indices, alias) - left;
        }
        left := left - {n};
      }
      assert Bearers(indices, alias) - {} == Bearers(indices, alias);
    }

    method ExprTargets(env: Env, fromPath: bool, expr: string) returns (r: Result<seq<string>>)
      ensures r == ExprIndices(indices, env, fromPath, expr)
    {
      if !fromPath && ',' in expr {
        return Err(IndexNotFound);
      }
      var targets := AliasTargets(expr);
      TargetsTell(indices, expr, targets);
      if expr !in indices && '*' !in expr && '?' !in expr && expr != "_all" && |targets| > 0 {
        return Err(MatchesAlias);
      }
      match env.resolve(expr) {
        case None => return Err(Unresolved);
        case Some(names) =>
          if names == [] {
            return Err(IndexNotFound);
          }
          return Ok(names);
      }
    }

    static method AddUnseen(seen: seq<string>, names: seq<string>) returns (out: seq<string>)
      ensures out == Unseen(seen, names)
    {
      out := seen;
      for i := 0 to |names|
        invariant out == Unseen(seen, names[..i])
      {
        assert names[..i + 1][..i] == names[..i];
        if names[i] !in out {
          out := out + [names[i]];
        }
      }
      assert names[..|names|] == names;
    }

    method ActionTargets(env: Env, a: Action) returns (r: Result<seq<string>>)
      requires Sane(env, indices)
      ensures r == if a.exprs == [] then Err(NoIndices) else Aliases.ActionIndices(indices, env, a, |a.exprs|)
    {
      if a.exprs == [] {
        return Err(NoIndices);
      }
      hide Sane;
      var out: seq<string> := [];
      for k := 0 to |a.exprs|
        invariant ActionIndices(indices, env, a, k) == Ok(out)
      {
        var named := ExprTargets(env, a.fromPath, a.exprs[k]);
        if named.Err? {
          IndicesFailure(indices, env, a, k + 1, |a.exprs|, named.error);
          return Err(named.error);
        }
        out := AddUnseen(out, named.value);
      }
      return Ok(out);
    }

    /** Every pattern of a remove action finds an alias of the index. */
    method PatternsFound(table: Table, patterns: seq<string>) returns (all: bool)
      ensures all == AllFound(table, patterns)
    {
      all := true;
      for i := 0 to |patterns|
        invariant all <==> AllFound(table, patterns[..i])
      {
        var p := patterns[i];
        var found := false;
        var left := table.Keys;
        while left != {} && !found
          invariant left <= table.Keys
          invariant found ==> Found(table, p)
          invariant forall an :: an in table && (p == "_all" || Wildcard.Matches(p, an)) ==> found || an in left
          decreases |left|
        {
          var an :| an in left;
          left := left - {an};
          var matches := Wildcard.WildcardMatch(p, an);
          if p == "_all" || matches {
            found := true;
          }
        }
        OneMoreFound(table, patterns, i);
        all := all && found;
      }
      assert patterns[..|patterns|] == patterns;
    }

    method MatchingAliases(table: Table, patterns: seq<string>) returns (names: set<string>)
      ensures names == Existing(table, patterns)
    {
      names := {};
      var left := table.Keys;
      while left != {}
        invariant left <= table.Keys
        invariant forall an :: an in names <==> an in table && an !in left && Wildcard.Selected(patterns, an)
        decreases |left|
      {
        var an :| an in left;
        var matches := Wildcard.AliasPatternMatches(patterns, an);
        if matches {
          names := names + {an};
        }
        left := left - {an};
      }
    }

    method ExpandOne(env: Env, a: Action, name: string) returns (r: Result<seq<Final>>)
      requires name in indices
      ensures r == ExpandIndex(indices[name], env, a, name)
    {
      match a.kind {
        case Add =>
          return Ok(Adds(name, a.aliases, a.def));
        case RemoveIndex =>
          return Ok([FinalRemoveIndex(name)]);
        case Remove =>
          if a.mustExist == Some(false) {
            return Ok(Removes(name, a.aliases, a.mustExist));
          }
          var existing := MatchingAliases(indices[name], a.aliases);
          if a.mustExist.Some? {
            var all := PatternsFound(indices[name], a.aliases);
            if !all {
              return Err(AliasesNotFound);
            }
          }
          return Ok(Removes(name, env.listed(existing), a.mustExist));
      }
    }

    method ExpandTargets(env: Env, a: Action, names: seq<string>) returns (r: Result<seq<Final>>)
      requires forall n :: n in names ==> n in indices
      ensures r == ExpandIndices(indices, env, a, names, |names|)
    {
      hide Sane;
      var fs: seq<Final> := [];
      for k := 0 to |names|
        invariant ExpandIndices(indices, env, a, names, k) == Ok(fs)
      {
        var more := ExpandOne(env, a, names[k]);
        if more.Err? {
          TargetsFailure(indices, env, a, names, k + 1, |names|, more.error);
          return more;
        }
        fs := fs + more.value;
      }
      return Ok(fs);
    }

    method ExpandSingle(env: Env, a: Action) returns (r: Result<seq<Final>>)
      requires Sane(env, indices)
      ensures r == ExpandAction(indices, env, a)
    {
      var names := ActionTargets(env, a);
      match names {
        case Err(e) => return Err(e);
        case Ok(ns) =>
          ActionIndicesExist(indices, env, a, |a.exprs|);
          r := ExpandTargets(env, a, ns);
      }
    }

    method ExpandActions(env: Env, actions: seq<Action>) returns (r: Result<seq<Final>>)
      requires Sane(env, indices)
      ensures r == Expand(indices, env, actions, |actions|)
    {
      hide Sane;
      var fs: seq<Final> := [];
      for k := 0 to |actions|
        invariant Expand(indices, env, actions, k) == Ok(fs)
      {
        var more := ExpandSingle(env, actions[k]);
        if more.Err? {
          ExpandFailure(indices, env, actions, k + 1, |actions|, more.error);
          return more;
        }
        fs := fs + more.value;
      }
      return Ok(fs);
    }

    /** The actions run in order on copies of the tables they change. */
    method RunActions(env: Env, fs: seq<Final>, removed: set<string>)
      returns (err: Option<Error>, work: Indices, touched: set<string>)
      ensures match Replay(indices, env, removed, fs, |fs|)
              case Err(e) => err == Some(e)
              case Ok(w) => err == None && Overlay(indices, work) == w && touched == Touched(fs, |fs|)
      ensures work.Keys <= indices.Keys
    {
      err := None;
      work := map[];
      touched := {};
      assert Overlay(indices, work) == indices;
      for k := 0 to |fs|
        invariant err == None && Replay(indices, env, removed, fs, k) == Ok(Overlay(indices, work))
        invariant work.Keys <= indices.Keys
        invariant touched == Touched(fs, k)
      {
        TouchedNext(fs, k);
        err, work := RunAction(env, fs[k], removed, work);
        if err.Some? {
          ReplayFailure(indices, env, removed, fs, k + 1, |fs|, err.value);
          return;
        }
        if fs[k].FinalAdd? {
          touched := touched + {fs[k].alias};
        }
      }
    }

    method RunAction(env: Env, f: Final, removed: set<string>, before: Indices) returns (err: Option<Error>, work: Indices)
      requires before.Keys <= indices.Keys
      ensures work.Keys <= indices.Keys
      ensures match Step(indices, env, removed, Overlay(indices, before), f)
              case Err(e) => err == Some(e)
              case Ok(w) => err == None && Overlay(indices, work) == w
    {
      work := before;
      if f.FinalRemoveIndex? {
        return None, work;
      }
      if f.index !in indices || f.index in removed {
        return Some(IndexNotFound), work;
      }
      match f {
        case FinalAdd(n, alias, def) =>
          if !env.validName(alias, def) {
            return Some(InvalidAlias), work;
          }
          if alias in indices && alias !in removed {
            return Some(NameIsIndex), work;
          }
          if !env.validFilter(n, alias, def) {
            return Some(InvalidFilter), work;
          }
          var entries := if n in work then work[n] else indices[n];
          OverlaySet(indices, work, n, entries[alias := def]);
          return None, work[n := entries[alias := def]];
        case FinalRemove(n, alias, mustExist) =>
          var entries := if n in work then work[n] else indices[n];
          OverlaySet(indices, work, n, entries);
          OverlaySet(indices, work, n, entries - {alias});
          assert Overlay(indices, work)[n := entries] == Overlay(indices, work);
          work := work[n := entries];
          if alias !in entries {
            return if mustExist == Some(true) then Some(RequiredAliasMissing) else None, work;
          }
          return None, before[n := entries - {alias}];
      }
    }

    /** validateAliasProperties: an alias on the tables that are about to be committed. */
    method ValidateAliasProperties(env: Env, alias: string, removed: set<string>, work: Indices) returns (err: Option<Error>)
      requires Sane(env, indices)
      ensures var next := Overlay(indices, work) - removed;
              && (err == None <==> GoodAlias(next, alias))
              && (err.Some? ==> err == Some(if OneWriteIndex(next, alias) then MixedHidden(alias) else TwoWriteIndices(alias)))
    {
      var names := env.listed(indices.Keys);
      ghost var next := Overlay(indices, work) - removed;
      var withAlias: seq<string> := [];
      var props: Table := map[];
      for i := 0 to |names|
        invariant props.Keys == set n | n in withAlias
        invariant forall n :: n in withAlias <==> n in names[..i] && Has(next, n, alias)
        invariant forall n :: n in props ==> Has(next, n, alias) && props[n] == next[n][alias]
        invariant Distinct(withAlias)
      {
        var n := names[i];
        assert names[..i + 1] == names[..i] + [n];
        assert n !in names[..i];
        if n !in removed {
          var entries := if n in work then work[n] else indices[n];
          assert next[n] == entries;
          if alias in entries {
            withAlias := withAlias + [n];
            props := props[n := entries[alias]];
          }
        }
      }
      assert names[..|names|] == names;
      AllBearers(indices, next, names, withAlias, alias);
      err := CheckProperties(alias, withAlias, props, next);
    }

    static method CheckProperties(alias: string, withAlias: seq<string>, props: Table, ghost next: Indices) returns (err: Option<Error>)
      requires Distinct(withAlias) && forall n :: n in withAlias <==> Has(next, n, alias)
      requires forall n :: n in withAlias ==> n in props && Has(next, n, alias) && props[n] == next[n][alias]
      ensures err == None <==> GoodAlias(next, alias)
      ensures err.Some? ==> err == Some(if OneWriteIndex(next, alias) then MixedHidden(alias) else TwoWriteIndices(alias))
    {
      var writeIndices: seq<string>, hiddenOn: seq<string>, visibleOn: seq<string> := [], [], [];
      for i := 0 to |withAlias|
        invariant Distinct(writeIndices)
        invariant forall n :: n in writeIndices <==> n in withAlias[..i] && Writes(props[n])
        invariant forall n :: n in hiddenOn <==> n in withAlias[..i] && Hides(props[n])
        invariant forall n :: n in visibleOn <==> n in withAlias[..i] && !Hides(props[n])
      {
        var n := withAlias[i];
        assert withAlias[..i + 1] == withAlias[..i] + [n];
        assert n !in withAlias[..i];
        if Writes(props[n]) {
          writeIndices := writeIndices + [n];
        }
        if Hides(props[n]) {
          hiddenOn := hiddenOn + [n];
        } else {
          visibleOn := visibleOn + [n];
        }
      }
      assert withAlias[..|withAlias|] == withAlias;
      ManyWriters(next, alias, writeIndices);
      MixedVisibility(next, alias, hiddenOn, visibleOn);
      if |writeIndices| > 1 {
        return Some(TwoWriteIndices(alias));
      }
      if |hiddenOn| > 0 && |visibleOn| > 0 {
        return Some(MixedHidden(alias));
      }
      return None;
    }

    method RemoveIndices(removed: set<string>)
      modifies this
      ensures indices == old(indices) - removed
    {
      var left := removed;
      while left != {}
        invariant left <= removed && indices == old(indices) - (removed - left)
        decreases |left|
      {
        var name :| name in left;
        left := left - {name};
        if name in indices {
          indices := indices - {name};
        }
      }
    }

    /** The tables of the work copy, except those of removed indices. */
    method StoreTables(names: seq<string>, removed: set<string>, work: Indices)
      requires forall n :: n in names <==> n in work
      requires forall n :: n in work ==> n in indices || n in removed
      requires forall n :: n in indices ==> n !in removed
      modifies this
      ensures indices == Overlay(old(indices), work)
    {
      for i := 0 to |names|
        invariant indices.Keys == old(indices).Keys
        invariant forall n :: n in indices ==> indices[n] == if n in names[..i] then work[n] else old(indices)[n]
      {
        assert names[..i + 1] == names[..i] + [names[i]];
        if names[i] !in removed {
          indices := indices[names[i] := work[names[i]]];
        }
      }
      assert names[..|names|] == names;
    }

    method Commit(env: Env, removed: set<string>, work: Indices)
      requires Sane(env, indices) && work.Keys <= indices.Keys
      modifies this
      ensures indices == Overlay(old(indices), work) - removed
    {
      RemoveIndices(removed);
      StoreTables(env.listed(work.Keys), removed, work);
    }

    /** All added aliases, in any order. */
    method ValidateTouched(env: Env, touched: set<string>, removed: set<string>, work: Indices) returns (err: Option<Error>)
      requires Sane(env, indices)
      ensures var next := Overlay(indices, work) - removed;
              && (err == None <==> forall alias :: alias in touched ==> GoodAlias(next, alias))
              && (err.Some? ==> Blames(next, err.value))
    {
      var left := touched;
      ghost var next := Overlay(indices, work) - removed;
      while left != {}
        invariant left <= touched
        invariant forall alias :: alias in touched - left ==> GoodAlias(next, alias)
        decreases |left|
      {
        var alias :| alias in left;
        left := left - {alias};
        err := ValidateAliasProperties(env, alias, removed, work);
        if err.Some? {
          return;
        }
      }
      return None;
    }

    /**
     * The update aliases API: everything or nothing, and nothing exactly when the plan fails or would
     * leave some alias of the cluster with two write indices or hidden in part.
     */
    method ApplyAliasActions(env: Env, actions: seq<Action>) returns (err: Option<Error>)
      requires Sane(env, indices) && Consistent(indices)
      modifies this
      ensures indices == Updated(old(indices), env, actions) && Consistent(indices)
      ensures match Planned(old(indices), env, actions)
              case Err(e) => err == Some(e)
              case Ok(next) => (err == None <==> Consistent(next)) && (err.Some? ==> Blames(next, err.value))
      ensures err == None ==> Committed(old(indices), env, actions, indices)
      ensures err.Some? ==> indices == old(indices)
    {
      hide Committed;
      if Planned(indices, env, actions).Ok? {
        PlanMeans(indices, env, actions);
      }
      var named := NamedIndices(actions);
      if env.blocked(named) {
        return Some(Blocked);
      }
      var expanded := ExpandActions(env, actions);
      if expanded.Err? {
        return Some(expanded.error);
      }
      var fs := expanded.value;
      if fs == [] {
        return Some(AliasesNotFound);
      }
      var removed := Removed(fs);
      var work: Indices, touched: set<string>;
      err, work, touched := RunActions(env, fs, removed);
      if err.Some? {
        return;
      }
      TouchedSuffice(indices, env, fs);
      err := ValidateTouched(env, touched, removed, work);
      if err.Some? {
        return;
      }
      Commit(env, removed, work);
    }

    method NamedIndices(actions: seq<Action>) returns (named: set<string>)
      ensures named == Named(indices, actions)
    {
      named := {};
      for i := 0 to |actions|
        invariant named == Named(indices, actions[..i])
      {
        var exprs := actions[i].exprs;
        ghost var before := named;
        for k := 0 to |exprs|
          invariant named == before + set e | e in exprs[..k] && e in indices
        {
          assert exprs[..k + 1] == exprs[..k] + [exprs[k]];
          if exprs[k] in indices {
            named := named + {exprs[k]};
          }
        }
        assert exprs[..|exprs|] == exprs;
        NamedNext(indices, actions, i);
      }
      assert actions[..|actions|] == actions;
    }

    // ---------------------------------------------------------------- creating and deleting indices

    /** resolveIndexAliases: the aliases of the request, then those of the templates that add a name. */
    method ResolveIndexAliases(env: Env, index: string, request: seq<Def>, templates: seq<seq<Def>>) returns (r: Result<seq<Def>>)
      ensures r == NewAliases(indices, env, index, request, templates)
    {
      var out: seq<Def> := [];
      for k := 0 to |request|
        invariant FromRequest(indices, env, request, k) == Ok(out)
      {
        var bad := CheckDef(indices, env, request[k]);
        if bad.Some? {
          RequestFailure(indices, env, request, k + 1, |request|, bad.value);
          return Err(bad.value);
        }
        out := out + [request[k]];
      }
      ghost var own := out;
      for i := 0 to |templates|
        invariant FromTemplates(indices, env, index, own, templates, i) == Ok(out)
      {
        var added := AddTemplate(env, index, out, templates[i]);
        if added.Err? {
          TemplatesFailure(indices, env, index, own, templates, i + 1, |templates|, added.error);
          return added;
        }
        out := added.value;
      }
      return Ok(out);
    }

    method AddTemplate(env: Env, index: string, before: seq<Def>, tpl: seq<Def>) returns (r: Result<seq<Def>>)
      ensures r == FromTemplate(indices, env, index, before, tpl, |tpl|)
    {
      var out := before;
      for k := 0 to |tpl|
        invariant FromTemplate(indices, env, index, before, tpl, k) == Ok(out)
      {
        var d := tpl[k].(name := env.filled(tpl[k].name, index));
        if tpl[k].name !in Names(out) && d.name !in Names(out) {
          var bad := CheckDef(indices, env, d);
          if bad.Some? {
            TemplateFailure(indices, env, index, before, tpl, k + 1, |tpl|, bad.value);
            return Err(bad.value);
          }
          out := out + [d];
        }
      }
      return Ok(out);
    }

    /**
     * applyIndexAliases on a new index: it is in the cluster while its aliases are validated, and
     * taken out again.
     */
    method ApplyIndexAliases(env: Env, name: string, defs: seq<Def>) returns (r: Result<Table>)
      requires Sane(env, indices) && name !in indices && Consistent(indices)
      modifies this
      ensures indices == old(indices)
      ensures r.Ok? <==> FiltersFit(env, name, defs) && Consistent(indices[name := TableOf(defs)])
      ensures r.Ok? ==> r.value == TableOf(defs)
      ensures r.Err? ==> if FiltersFit(env, name, defs) then Blames(indices[name := TableOf(defs)], r.error) else r.error == InvalidFilter
    {
      var fit := CheckFilters(env, name, defs);
      if !fit {
        return Err(InvalidFilter);
      }
      var table := TableOf(defs);
      ghost var next := indices[name := table];
      indices := indices[name := map[]];
      var err := ValidateNew(env, name, defs, table, next);
      indices := indices - {name};
      assert indices == old(indices);
      CreateSuffices(indices, name, defs);
      return if err.Some? then Err(err.value) else Ok(table);
    }

    static method CheckFilters(env: Env, name: string, defs: seq<Def>) returns (fit: bool)
      ensures fit == FiltersFit(env, name, defs)
    {
      for k := 0 to |defs|
        invariant FiltersFit(env, name, defs[..k])
      {
        assert defs[..k + 1] == defs[..k] + [defs[k]];
        if !env.validFilter(name, defs[k].name, defs[k].alias) {
          assert defs[k] in defs;
          return false;
        }
      }
      assert defs[..|defs|] == defs;
      return true;
    }

    method ValidateNew(env: Env, name: string, defs: seq<Def>, table: Table, ghost next: Indices) returns (err: Option<Error>)
      requires Sane(env, indices) && name in indices && next == indices[name := table]
      ensures err == None <==> forall d :: d in defs ==> GoodAlias(next, d.name)
      ensures err.Some? ==> Blames(next, err.value)
    {
      assert Overlay(indices, map[name := table]) - {} == next;
      for k := 0 to |defs|
        invariant forall d :: d in defs[..k] ==> GoodAlias(next, d.name)
      {
        assert defs[..k + 1] == defs[..k] + [defs[k]];
        err := ValidateAliasProperties(env, defs[k].name, {}, map[name := table]);
        if err.Some? {
          assert defs[k] in defs;
          return;
        }
      }
      assert defs[..|defs|] == defs;
      return None;
    }

    method CreateIndex(env: Env, name: string, request: seq<Def>, templates: seq<seq<Def>>) returns (err: Option<Error>)
      requires Sane(env, indices) && Consistent(indices)
      modifies this
      ensures indices == WithIndex(old(indices), env, name, request, templates) && Consistent(indices)
      ensures err == None <==> CanCreate(old(indices), env, name, request, templates)
    {
      if !env.validIndexName(name) {
        return Some(InvalidIndexName);
      }
      if name in indices {
        return Some(IndexExists);
      }
      var targets := AliasTargets(name);
      TargetsTell(indices, name, targets);
      if |targets| > 0 {
        return Some(NameIsAlias);
      }
      if env.blocked({}) {
        return Some(Blocked);
      }
      var defs := ResolveIndexAliases(env, name, request, templates);
      if defs.Err? {
        return Some(defs.error);
      }
      var table := ApplyIndexAliases(env, name, defs.value);
      if table.Err? {
        return Some(table.error);
      }
      indices := indices[name := table.value];
      return None;
    }

    method DeleteIndex(env: Env, expr: string) returns (err: Option<Error>)
      requires Sane(env, indices) && Consistent(indices)
      modifies this
      ensures indices == Without(old(indices), env, expr) && Consistent(indices)
      ensures Disjoint(old(indices)) ==> Disjoint(indices)
    {
      match env.resolve(expr) {
        case None => return Some(Unresolved);
        case Some(names) =>
          if env.blocked(set n | n in names) {
            return Some(Blocked);
          }
          ghost var before := indices;
          for i := 0 to |names|
            invariant indices == before - set n | n in names[..i]
          {
            assert names[..i + 1] == names[..i] + [names[i]];
            if names[i] in indices {
              indices := indices - {names[i]};
            }
          }
          assert names[..|names|] == names;
          FewerIsConsistent(before, set n | n in names);
          return None;
      }
    }

    // ---------------------------------------------------------------- writing through an alias

    /** The index that a write to a name goes to; at most one index qualifies in a consistent cluster. */
    method WriteIndex(name: string) returns (r: Result<string>)
      ensures r.Ok? ==> WriteTarget(indices, name, r.value)
      ensures r.Err? ==> forall n :: !WriteTarget(indices, name, n)
      ensures r.Err? ==> r.error == if IsAlias(indices, name) then NoWriteIndex else IndexNotFound
    {
      if name in indices {
        return Ok(name);
      }
      var ts := AliasTargets(name);
      TargetsTell(indices, name, ts);
      if |ts| == 0 {
        return Err(IndexNotFound);
      }
      if |ts| == 1 && indices[ts[0]][name].isWrite != Some(false) {
        OnlyBearer(indices, name, ts);
        assert indices[ts[0]][name].isWrite == None || indices[ts[0]][name].isWrite.value;
        return Ok(ts[0]);
      }
      for i := 0 to |ts|
        invariant forall k :: 0 <= k < i ==> !Writes(indices[ts[k]][name])
      {
        if Writes(indices[ts[i]][name]) {
          return Ok(ts[i]);
        }
      }
      NoTarget(indices, name, ts);
      return Err(NoWriteIndex);
    }
  }

  lemma NamedNext(ixs: Indices, actions: seq<Action>, i: nat)
    requires i < |actions|
    ensures Named(ixs, actions[..i + 1]) == Named(ixs, actions[..i]) + set e | e in actions[i].exprs && e in ixs
  {
    assert actions[..i + 1] == actions[..i] + [actions[i]];
    forall e | e in actions[i].exprs && e in ixs ensures e in Named(ixs, actions[..i + 1]) {
      assert actions[i] in actions[..i + 1];
    }
  }

  lemma AllBearers(ixs: Indices, next: Indices, names: seq<string>, withAlias: seq<string>, alias: string)
    requires ListedBy(names, ixs.Keys) && next.Keys <= ixs.Keys
    requires forall n :: n in withAlias <==> n in names && Has(next, n, alias)
    ensures forall n :: n in withAlias <==> Has(next, n, alias)
  {
  }

  lemma ManyWriters(next: Indices, alias: string, writers: seq<string>)
    requires Distinct(writers) && forall n :: n in writers <==> Has(next, n, alias) && Writes(next[n][alias])
    ensures |writers| > 1 <==> !OneWriteIndex(next, alias)
  {
    if |writers| > 1 {
      assert writers[0] in writers && writers[1] in writers;
    }
    if !OneWriteIndex(next, alias) {
      var m, n :| Has(next, m, alias) && Has(next, n, alias) && Writes(next[m][alias]) && Writes(next[n][alias]) && m != n;
      assert m in writers && n in writers;
    }
  }

  lemma MixedVisibility(next: Indices, alias: string, hiddenOn: seq<string>, visibleOn: seq<string>)
    requires forall n :: n in hiddenOn <==> Has(next, n, alias) && Hides(next[n][alias])
    requires forall n :: n in visibleOn <==> Has(next, n, alias) && !Hides(next[n][alias])
    ensures |hiddenOn| > 0 && |visibleOn| > 0 <==> !SameHidden(next, alias)
  {
    if |hiddenOn| > 0 && |visibleOn| > 0 {
      assert hiddenOn[0] in hiddenOn && visibleOn[0] in visibleOn;
    }
    if !SameHidden(next, alias) {
      var m, n :| Has(next, m, alias) && Has(next, n, alias) && Hides(next[m][alias]) && !Hides(next[n][alias]);
      assert m in hiddenOn && n in visibleOn;
    }
  }

  lemma OverlaySet(ixs: Indices, work: Indices, n: string, table: Table)
    requires n in ixs
    ensures Overlay(ixs, work[n := table]) == Overlay(ixs, work)[n := table]
  {
  }

  lemma TouchedNext(fs: seq<Final>, k: nat)
    requires k < |fs|
    ensures Touched(fs, k + 1) == Touched(fs, k) + if fs[k].FinalAdd? then {fs[k].alias} else {}
  {
    assert fs[..k + 1] == fs[..k] + [fs[k]];
    if fs[k].FinalAdd? {
      assert fs[k] in fs[..k + 1];
    }
  }

  lemma {:induction false} ReplayFailure(ixs: Indices, env: Env, removed: set<string>, fs: seq<Final>, n: nat, m: nat, e: Error)
    requires n <= m <= |fs| && Replay(ixs, env, removed, fs, n) == Err(e)
    ensures Replay(ixs, env, removed, fs, m) == Err(e)
  {
    if n < m {
      ReplayFailure(ixs, env, removed, fs, n, m - 1, e);
    }
  }

  lemma OneMoreFound(table: Table, patterns: seq<string>, i: nat)
    requires i < |patterns|
    ensures AllFound(table, patterns[..i + 1]) <==> AllFound(table, patterns[..i]) && Found(table, patterns[i])
  {
    if AllFound(table, patterns[..i + 1]) {
      forall k | 0 <= k < i ensures Found(table, patterns[..i][k]) {
        assert Found(table, patterns[..i + 1][k]);
      }
      assert Found(table, patterns[..i + 1][i]);
    }
  }

  lemma {:induction false} TargetsFailure(ixs: Indices, env: Env, a: Action, names: seq<string>, n: nat, m: nat, e: Error)
    requires n <= m <= |names| && forall x :: x in names ==> x in ixs
    requires ExpandIndices(ixs, env, a, names, n) == Err(e)
    ensures ExpandIndices(ixs, env, a, names, m) == Err(e)
  {
    if n < m {
      TargetsFailure(ixs, env, a, names, n, m - 1, e);
    }
  }

  lemma {:induction false} ExpandFailure(ixs: Indices, env: Env, actions: seq<Action>, n: nat, m: nat, e: Error)
    requires Sane(env, ixs) && n <= m <= |actions| && Expand(ixs, env, actions, n) == Err(e)
    ensures Expand(ixs, env, actions, m) == Err(e)
  {
    if n < m {
      ExpandFailure(ixs, env, actions, n, m - 1, e);
    }
  }

  lemma ListsOneMore(s: seq<string>, names: set<string>, n: string)
    requires ListedBy(s, names) && n !in names
    ensures ListedBy(s + [n], names + {n})
  {
  }

  lemma {:induction false} IndicesFailure(ixs: Indices, env: Env, a: Action, n: nat, m: nat, e: Error)
    requires n <= m <= |a.exprs| && ActionIndices(ixs, env, a, n) == Err(e)
    ensures ActionIndices(ixs, env, a, m) == Err(e)
  {
    if n < m {
      IndicesFailure(ixs, env, a, n, m - 1, e);
    }
  }
}

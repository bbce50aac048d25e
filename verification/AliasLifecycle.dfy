/**
 * What creating and deleting indices does to the aliases of a cluster, where a write to an alias
 * goes, and what holds over whole runs: internal/engine/alias.go and internal/engine/cluster.go.
 */
module AliasLifecycle {
  import opened Aliases
  import opened Options

  // ---------------------------------------------------------------- what creation and deletion mean

  datatype Def = Def(name: string, alias: Alias)

  /** validateCreateAlias */
  function CheckDef(ixs: Indices, env: Env, d: Def): (bad: Option<Error>) {
    if !env.validName(d.name, d.alias) then Some(InvalidAlias)
    else if d.name in ixs then Some(NameIsIndex)
    else None
  }

  function Names(defs: seq<Def>): set<string> { set d | d in defs :: d.name }

  function FromRequest(ixs: Indices, env: Env, request: seq<Def>, k: nat): (r: Result<seq<Def>>)
    requires k <= |request|
  {
    if k == 0 then Ok([])
    else
      match FromRequest(ixs, env, request, k - 1)
      case Err(e) => Err(e)
      case Ok(out) =>
        match CheckDef(ixs, env, request[k - 1])
        case Some(e) => Err(e)
        case None => Ok(out + [request[k - 1]])
  }

  function FromTemplate(ixs: Indices, env: Env, index: string, before: seq<Def>, tpl: seq<Def>, k: nat): (r: Result<seq<Def>>)
    requires k <= |tpl|
  {
    if k == 0 then Ok(before)
    else
      match FromTemplate(ixs, env, index, before, tpl, k - 1)
      case Err(e) => Err(e)
      case Ok(out) =>
        var d := tpl[k - 1].(name := env.filled(tpl[k - 1].name, index));
        if tpl[k - 1].name in Names(out) || d.name in Names(out) then Ok(out)
        else
          match CheckDef(ixs, env, d)
          case Some(e) => Err(e)
          case None => Ok(out + [d])
  }

  function FromTemplates(ixs: Indices, env: Env, index: string, own: seq<Def>, templates: seq<seq<Def>>, k: nat): (r: Result<seq<Def>>)
    requires k <= |templates|
  {
    if k == 0 then Ok(own)
    else
      match FromTemplates(ixs, env, index, own, templates, k - 1)
      case Err(e) => Err(e)
      case Ok(out) => FromTemplate(ixs, env, index, out, templates[k - 1], |templates[k - 1]|)
  }

  function NewAliases(ixs: Indices, env: Env, index: string, request: seq<Def>, templates: seq<seq<Def>>): (r: Result<seq<Def>>) {
    match FromRequest(ixs, env, request, |request|)
    case Err(e) => Err(e)
    case Ok(own) => FromTemplates(ixs, env, index, own, templates, |templates|)
  }

  /** The table of a list of definitions; a later one replaces an earlier one of the same name. */
  function TableOf(defs: seq<Def>): (t: Table)
    ensures t.Keys == Names(defs)
  {
    if defs == [] then map[]
    else
      var d := defs[|defs| - 1];
      assert defs == defs[..|defs| - 1] + [d];
      TableOf(defs[..|defs| - 1])[d.name := d.alias]
  }

  /** An alias has the last of its definitions. */
  lemma {:induction false} TableExact(defs: seq<Def>, i: nat)
    requires i < |defs| && forall j :: i < j < |defs| ==> defs[j].name != defs[i].name
    ensures defs[i].name in TableOf(defs) && TableOf(defs)[defs[i].name] == defs[i].alias
  {
    var n := |defs| - 1;
    if i < n {
      TableExact(defs[..n], i);
    }
  }

  predicate FiltersFit(env: Env, name: string, defs: seq<Def>) {
    forall d :: d in defs ==> env.validFilter(name, d.name, d.alias)
  }

  ghost predicate CanCreate(ixs: Indices, env: Env, name: string, request: seq<Def>, templates: seq<seq<Def>>) {
    && env.validIndexName(name) && name !in ixs && !IsAlias(ixs, name) && !env.blocked({})
    && var defs := NewAliases(ixs, env, name, request, templates);
       defs.Ok? && FiltersFit(env, name, defs.value) && Consistent(ixs[name := TableOf(defs.value)])
  }

  ghost function WithIndex(ixs: Indices, env: Env, name: string, request: seq<Def>, templates: seq<seq<Def>>): Indices {
    if CanCreate(ixs, env, name, request, templates)
    then ixs[name := TableOf(NewAliases(ixs, env, name, request, templates).value)]
    else ixs
  }

  function Without(ixs: Indices, env: Env, expr: string): Indices {
    match env.resolve(expr)
    case None => ixs
    case Some(names) => if env.blocked(set n | n in names) then ixs else ixs - set n | n in names
  }

  lemma {:induction false} RequestFailure(ixs: Indices, env: Env, request: seq<Def>, n: nat, m: nat, e: Error)
    requires n <= m <= |request| && FromRequest(ixs, env, request, n) == Err(e)
    ensures FromRequest(ixs, env, request, m) == Err(e)
  {
    if n < m {
      RequestFailure(ixs, env, request, n, m - 1, e);
    }
  }

  lemma {:induction false} TemplateFailure(ixs: Indices, env: Env, index: string, before: seq<Def>, tpl: seq<Def>, n: nat, m: nat, e: Error)
    requires n <= m <= |tpl| && FromTemplate(ixs, env, index, before, tpl, n) == Err(e)
    ensures FromTemplate(ixs, env, index, before, tpl, m) == Err(e)
  {
    if n < m {
      TemplateFailure(ixs, env, index, before, tpl, n, m - 1, e);
    }
  }

  lemma {:induction false} TemplatesFailure(ixs: Indices, env: Env, index: string, own: seq<Def>, templates: seq<seq<Def>>, n: nat, m: nat, e: Error)
    requires n <= m <= |templates| && FromTemplates(ixs, env, index, own, templates, n) == Err(e)
    ensures FromTemplates(ixs, env, index, own, templates, m) == Err(e)
  {
    if n < m {
      TemplatesFailure(ixs, env, index, own, templates, n, m - 1, e);
    }
  }

  /** Aliases the new index does not have are as good as before. */
  lemma CreateSuffices(ixs: Indices, name: string, defs: seq<Def>)
    requires Consistent(ixs) && name !in ixs
    ensures var next := ixs[name := TableOf(defs)];
            Consistent(next) <==> forall d :: d in defs ==> GoodAlias(next, d.name)
  {
    var next := ixs[name := TableOf(defs)];
    forall alias | alias !in Names(defs) ensures GoodAlias(next, alias) {
      assert GoodAlias(ixs, alias);
      forall m | Has(next, m, alias) ensures Has(ixs, m, alias) && next[m] == ixs[m] {
      }
    }
    if forall d :: d in defs ==> GoodAlias(next, d.name) {
      forall alias | alias in Names(defs) ensures GoodAlias(next, alias) {
        var d :| d in defs && d.name == alias;
      }
    }
  }

  lemma FewerIsConsistent(ixs: Indices, gone: set<string>)
    requires Consistent(ixs)
    ensures Consistent(ixs - gone)
    ensures Disjoint(ixs) ==> Disjoint(ixs - gone)
  {
    forall alias ensures GoodAlias(ixs - gone, alias) {
      LessIsGood(ixs, ixs, {}, gone, alias);
    }
    if Disjoint(ixs) {
      forall m, n | n in ixs - gone ensures !Has(ixs - gone, m, n) {
        assert !Has(ixs, m, n);
      }
    }
  }

  // ---------------------------------------------------------------- aliases of new indices

  /** Every accepted alias is valid and not named like an existing index. */
  lemma {:induction false} RequestChecked(ixs: Indices, env: Env, request: seq<Def>, k: nat)
    requires k <= |request| && FromRequest(ixs, env, request, k).Ok?
    ensures FromRequest(ixs, env, request, k).value == request[..k]
    ensures forall d :: d in request[..k] ==> CheckDef(ixs, env, d) == None
  {
    if k > 0 {
      RequestChecked(ixs, env, request, k - 1);
      assert request[..k] == request[..k - 1] + [request[k - 1]];
    }
  }

  /** `out` extends `before` with checked aliases of new names, and has every name of the templates' first k entries. */
  ghost predicate Extends(ixs: Indices, env: Env, before: seq<Def>, out: seq<Def>) {
    && before <= out
    && (forall i :: |before| <= i < |out| ==> CheckDef(ixs, env, out[i]) == None && out[i].name !in Names(out[..i]))
  }

  ghost predicate Covers(env: Env, index: string, tpl: seq<Def>, out: seq<Def>) {
    forall d :: d in tpl ==> d.name in Names(out) || env.filled(d.name, index) in Names(out)
  }

  lemma NamesGrow(a: seq<Def>, b: seq<Def>)
    requires a <= b
    ensures Names(a) <= Names(b)
  {
    forall n | n in Names(a) ensures n in Names(b) {
      var d :| d in a && d.name == n;
      assert d in b;
    }
  }

  lemma CoversEntry(env: Env, index: string, tpl: seq<Def>, d: Def, before: seq<Def>, after: seq<Def>)
    requires Covers(env, index, tpl, before) && before <= after
    requires d.name in Names(after) || env.filled(d.name, index) in Names(after)
    ensures Covers(env, index, tpl + [d], after)
  {
    hide Names;
    NamesGrow(before, after);
  }

  lemma ExtendsMore(ixs: Indices, env: Env, before: seq<Def>, out: seq<Def>, d: Def)
    requires Extends(ixs, env, before, out) && CheckDef(ixs, env, d) == None && d.name !in Names(out)
    ensures Extends(ixs, env, before, out + [d]) && d.name in Names(out + [d])
  {
    var more := out + [d];
    assert d in more;
    forall i | |before| <= i < |more| ensures CheckDef(ixs, env, more[i]) == None && more[i].name !in Names(more[..i]) {
      assert more[..i] == out[..i];
      assert i == |out| ==> out[..i] == out;
    }
  }

  lemma {:induction false} TemplateExtends(ixs: Indices, env: Env, index: string, before: seq<Def>, tpl: seq<Def>, k: nat)
    requires k <= |tpl| && FromTemplate(ixs, env, index, before, tpl, k).Ok?
    ensures Extends(ixs, env, before, FromTemplate(ixs, env, index, before, tpl, k).value)
    ensures Covers(env, index, tpl[..k], FromTemplate(ixs, env, index, before, tpl, k).value)
  {
    if k == 0 {
      assert tpl[..0] == [];
    } else {
      hide Extends, Covers, Names, CheckDef;
      TemplateExtends(ixs, env, index, before, tpl, k - 1);
      var shorter := FromTemplate(ixs, env, index, before, tpl, k - 1).value;
      var out := FromTemplate(ixs, env, index, before, tpl, k).value;
      var d := tpl[k - 1].(name := env.filled(tpl[k - 1].name, index));
      assert tpl[..k] == tpl[..k - 1] + [tpl[k - 1]];
      if out != shorter {
        ExtendsMore(ixs, env, before, shorter, d);
      }
      CoversEntry(env, index, tpl[..k - 1], tpl[k - 1], shorter, out);
    }
  }

  lemma ExtendsTwice(ixs: Indices, env: Env, a: seq<Def>, b: seq<Def>, c: seq<Def>)
    requires Extends(ixs, env, a, b) && Extends(ixs, env, b, c)
    ensures Extends(ixs, env, a, c)
  {
    forall i | |a| <= i < |c| ensures CheckDef(ixs, env, c[i]) == None && c[i].name !in Names(c[..i]) {
      if i < |b| {
        assert c[i] == b[i] && c[..i] == b[..i];
      }
    }
  }

  lemma {:induction false} TemplatesExtend(ixs: Indices, env: Env, index: string, own: seq<Def>, templates: seq<seq<Def>>, k: nat)
    requires k <= |templates| && FromTemplates(ixs, env, index, own, templates, k).Ok?
    ensures Extends(ixs, env, own, FromTemplates(ixs, env, index, own, templates, k).value)
    ensures forall i :: 0 <= i < k ==> Covers(env, index, templates[i], FromTemplates(ixs, env, index, own, templates, k).value)
  {
    if k > 0 {
      TemplatesExtend(ixs, env, index, own, templates, k - 1);
      var b := FromTemplates(ixs, env, index, own, templates, k - 1).value;
      TemplateExtends(ixs, env, index, b, templates[k - 1], |templates[k - 1]|);
      var c := FromTemplate(ixs, env, index, b, templates[k - 1], |templates[k - 1]|).value;
      assert templates[k - 1][..|templates[k - 1]|] == templates[k - 1];
      OneMoreTemplate(ixs, env, index, own, templates, k, b, c);
    }
  }

  lemma OneMoreTemplate(ixs: Indices, env: Env, index: string, own: seq<Def>, templates: seq<seq<Def>>, k: nat, b: seq<Def>, c: seq<Def>)
    requires 0 < k <= |templates| && Extends(ixs, env, own, b) && Extends(ixs, env, b, c)
    requires forall i :: 0 <= i < k - 1 ==> Covers(env, index, templates[i], b)
    requires Covers(env, index, templates[k - 1], c)
    ensures Extends(ixs, env, own, c) && forall i :: 0 <= i < k ==> Covers(env, index, templates[i], c)
  {
    ExtendsTwice(ixs, env, own, b, c);
    forall i | 0 <= i < k ensures Covers(env, index, templates[i], c) {
      if i < k - 1 {
        CoversMore(env, index, templates[i], b, c);
      }
    }
  }

  lemma CoversMore(env: Env, index: string, tpl: seq<Def>, b: seq<Def>, c: seq<Def>)
    requires Covers(env, index, tpl, b) && b <= c
    ensures Covers(env, index, tpl, c)
  {
    NamesGrow(b, c);
  }

  /**
   * The aliases of the request come first and unchanged; templates add only names that are not there
   * yet, and leave none of their names out. All of them are valid and free as names.
   */
  lemma NewAliasesExact(ixs: Indices, env: Env, index: string, request: seq<Def>, templates: seq<seq<Def>>)
    requires NewAliases(ixs, env, index, request, templates).Ok?
    ensures Extends(ixs, env, request, NewAliases(ixs, env, index, request, templates).value)
    ensures forall d :: d in NewAliases(ixs, env, index, request, templates).value ==> CheckDef(ixs, env, d) == None
    ensures forall i :: 0 <= i < |templates| ==>
              Covers(env, index, templates[i], NewAliases(ixs, env, index, request, templates).value)
  {
    RequestChecked(ixs, env, request, |request|);
    assert request[..|request|] == request;
    TemplatesExtend(ixs, env, index, request, templates, |templates|);
  }

  // ---------------------------------------------------------------- which template definitions are taken

  function Filled(env: Env, index: string, d: Def): Def { d.(name := env.filled(d.name, index)) }

  /** Neither the name of the definition nor the name that it gets is there. */
  ghost predicate Fresh(env: Env, index: string, out: seq<Def>, d: Def) {
    d.name !in Names(out) && env.filled(d.name, index) !in Names(out)
  }

  /** Position p of the definitions comes after the first k of those that were taken, and before the others. */
  ghost predicate Between(taken: seq<nat>, k: nat, p: nat) {
    k <= |taken| && (forall i :: 0 <= i < k ==> taken[i] < p) && (forall i :: k <= i < |taken| ==> p < taken[i])
  }

  /**
   * Of all definitions in order, those at the taken positions follow the own ones, under their filled
   * names. Each was fresh when its turn came, and every other one was not.
   */
  ghost predicate TakenFrom(env: Env, index: string, own: seq<Def>, all: seq<Def>, taken: seq<nat>, out: seq<Def>) {
    && |out| == |own| + |taken| && out[..|own|] == own
    && (forall k :: 0 <= k < |taken| ==> taken[k] < |all| && TakenAt(env, index, |own|, all, taken, out, k))
    && (forall i, j :: 0 <= i < j < |taken| ==> taken[i] < taken[j])
    && (forall p, k :: 0 <= p < |all| && 0 <= k <= |taken| && Between(taken, k, p) ==> !Fresh(env, index, out[..|own| + k], all[p]))
  }

  ghost predicate TakenAt(env: Env, index: string, own: nat, all: seq<Def>, taken: seq<nat>, out: seq<Def>, k: nat)
    requires k < |taken| && taken[k] < |all| && own + |taken| <= |out|
  {
    out[own + k] == Filled(env, index, all[taken[k]]) && Fresh(env, index, out[..own + k], all[taken[k]])
  }

  lemma BetweenShorter(taken: seq<nat>, x: nat, k: nat, p: nat)
    requires Between(taken + [x], k, p) && p <= x
    ensures p < x && k <= |taken| && Between(taken, k, p)
  {
    var longer := taken + [x];
    assert longer[|taken|] == x;
    assert forall i :: 0 <= i < |taken| ==> longer[i] == taken[i];
  }

  lemma BetweenEnd(taken: seq<nat>, k: nat, p: nat)
    requires Between(taken, k, p) && forall i :: 0 <= i < |taken| ==> taken[i] < p
    ensures k == |taken|
  {
    if k < |taken| {
      OthersAfter(taken, k, p);
    }
  }

  lemma OthersAfter(taken: seq<nat>, k: nat, p: nat)
    requires k < |taken| && Between(taken, k, p)
    ensures p < taken[k]
  {
  }

  lemma TakeSkip(env: Env, index: string, own: seq<Def>, all: seq<Def>, taken: seq<nat>, out: seq<Def>, d: Def)
    requires TakenFrom(env, index, own, all, taken, out) && !Fresh(env, index, out, d)
    ensures TakenFrom(env, index, own, all + [d], taken, out)
  {
    var next := all + [d];
    hide Fresh, Between;
    forall k | 0 <= k < |taken| ensures TakenAt(env, index, |own|, next, taken, out, k) {
      assert TakenAt(env, index, |own|, all, taken, out, k);
    }
    forall p, k | 0 <= p < |next| && 0 <= k <= |taken| && Between(taken, k, p) ensures !Fresh(env, index, out[..|own| + k], next[p]) {
      if p == |all| {
        BetweenEnd(taken, k, p);
        assert out[..|own| + k] == out;
      }
    }
  }

  lemma SameFront(a: seq<Def>, x: Def, n: nat)
    requires n <= |a|
    ensures (a + [x])[..n] == a[..n]
  {
  }

  lemma TakeFresh(env: Env, index: string, own: seq<Def>, all: seq<Def>, taken: seq<nat>, out: seq<Def>, d: Def)
    requires TakenFrom(env, index, own, all, taken, out) && Fresh(env, index, out, d)
    ensures TakenFrom(env, index, own, all + [d], taken + [|all|], out + [Filled(env, index, d)])
  {
    var next, longer, more := all + [d], taken + [|all|], out + [Filled(env, index, d)];
    hide Fresh, Between, Filled;
    SameFront(out, Filled(env, index, d), |own|);
    forall k | 0 <= k < |longer| ensures longer[k] < |next| && TakenAt(env, index, |own|, next, longer, more, k) {
      SameFront(out, Filled(env, index, d), |own| + k);
      if k < |taken| {
        assert TakenAt(env, index, |own|, all, taken, out, k);
      } else {
        assert out[..|own| + k] == out;
      }
    }
    forall p, k | 0 <= p < |next| && 0 <= k <= |longer| && Between(longer, k, p) ensures !Fresh(env, index, more[..|own| + k], next[p]) {
      BetweenShorter(taken, |all|, k, p);
      SameFront(out, Filled(env, index, d), |own| + k);
    }
  }

  lemma TakeNext(env: Env, index: string, own: seq<Def>, all: seq<Def>, taken: seq<nat>, out: seq<Def>, d: Def) returns (taken': seq<nat>)
    requires TakenFrom(env, index, own, all, taken, out)
    ensures TakenFrom(env, index, own, all + [d], taken', if Fresh(env, index, out, d) then out + [Filled(env, index, d)] else out)
  {
    hide TakenFrom;
    if Fresh(env, index, out, d) {
      TakeFresh(env, index, own, all, taken, out, d);
      taken' := taken + [|all|];
    } else {
      TakeSkip(env, index, own, all, taken, out, d);
      taken' := taken;
    }
  }

  /** The definitions of the first k templates, one after the other. */
  function AllOf(templates: seq<seq<Def>>, k: nat): seq<Def>
    requires k <= |templates|
  {
    if k == 0 then [] else AllOf(templates, k - 1) + templates[k - 1]
  }

  lemma {:induction false} TemplateTakes(ixs: Indices, env: Env, index: string, own: seq<Def>, all: seq<Def>, taken: seq<nat>, before: seq<Def>, tpl: seq<Def>, k: nat)
    returns (taken': seq<nat>)
    requires k <= |tpl| && TakenFrom(env, index, own, all, taken, before) && FromTemplate(ixs, env, index, before, tpl, k).Ok?
    ensures TakenFrom(env, index, own, all + tpl[..k], taken', FromTemplate(ixs, env, index, before, tpl, k).value)
    decreases k
  {
    hide TakenFrom;
    if k == 0 {
      assert all + tpl[..0] == all;
      taken' := taken;
    } else {
      var shorter := TemplateTakes(ixs, env, index, own, all, taken, before, tpl, k - 1);
      assert all + tpl[..k] == all + tpl[..k - 1] + [tpl[k - 1]];
      taken' := TakeNext(env, index, own, all + tpl[..k - 1], shorter, FromTemplate(ixs, env, index, before, tpl, k - 1).value, tpl[k - 1]);
    }
  }

  /** The templates of a new index, in order: a definition is taken exactly when both of its names are new. */
  lemma {:induction false} TemplatesTaken(ixs: Indices, env: Env, index: string, own: seq<Def>, templates: seq<seq<Def>>, k: nat)
    returns (taken: seq<nat>)
    requires k <= |templates| && FromTemplates(ixs, env, index, own, templates, k).Ok?
    ensures TakenFrom(env, index, own, AllOf(templates, k), taken, FromTemplates(ixs, env, index, own, templates, k).value)
    decreases k
  {
    if k == 0 {
      taken := [];
      assert own[..|own|] == own;
    } else {
      hide TakenFrom;
      var shorter := TemplatesTaken(ixs, env, index, own, templates, k - 1);
      var tpl := templates[k - 1];
      assert tpl[..|tpl|] == tpl;
      taken := TemplateTakes(ixs, env, index, own, AllOf(templates, k - 1), shorter, FromTemplates(ixs, env, index, own, templates, k - 1).value, tpl, |tpl|);
    }
  }

  /** So do the aliases of a new index: those of the request, and then the template definitions that are taken. */
  lemma NewAliasesTaken(ixs: Indices, env: Env, index: string, request: seq<Def>, templates: seq<seq<Def>>) returns (taken: seq<nat>)
    requires NewAliases(ixs, env, index, request, templates).Ok?
    ensures TakenFrom(env, index, request, AllOf(templates, |templates|), taken, NewAliases(ixs, env, index, request, templates).value)
  {
    hide TakenFrom;
    RequestChecked(ixs, env, request, |request|);
    assert request[..|request|] == request;
    taken := TemplatesTaken(ixs, env, index, request, templates, |templates|);
  }

  /** A new index keeps alias and index names apart exactly when it is not its own alias; nothing rules that out. */
  lemma CreateDisjoint(ixs: Indices, env: Env, name: string, request: seq<Def>, templates: seq<seq<Def>>)
    requires Disjoint(ixs) && CanCreate(ixs, env, name, request, templates)
    ensures Disjoint(WithIndex(ixs, env, name, request, templates))
       <==> name !in Names(NewAliases(ixs, env, name, request, templates).value)
  {
    var defs := NewAliases(ixs, env, name, request, templates).value;
    NewAliasesExact(ixs, env, name, request, templates);
    var next := ixs[name := TableOf(defs)];
    if name !in Names(defs) {
      forall m, n | n in next ensures !Has(next, m, n) {
        assert n != name ==> !Has(ixs, m, n);
        assert n == name ==> !Has(ixs, m, n);
      }
    } else {
      assert Has(next, name, name);
    }
  }

  lemma SingleIsConsistent(name: string, table: Table)
    ensures Consistent(map[name := table])
  {
    forall alias ensures GoodAlias(map[name := table], alias) {
    }
  }

  /** An index that is its own alias is accepted. */
  lemma OwnAliasAccepted(env: Env, d: Def)
    requires env.validIndexName(d.name) && !env.blocked({})
    requires env.validName(d.name, d.alias) && env.validFilter(d.name, d.name, d.alias)
    ensures CanCreate(map[], env, d.name, [d], [])
    ensures !Disjoint(WithIndex(map[], env, d.name, [d], []))
  {
    OwnRequest(env, d);
    SingleIsConsistent(d.name, TableOf([d]));
    assert map[][d.name := TableOf([d])] == map[d.name := TableOf([d])];
    assert d in [d];
    CreateDisjoint(map[], env, d.name, [d], []);
  }

  lemma OwnRequest(env: Env, d: Def)
    requires env.validName(d.name, d.alias)
    ensures NewAliases(map[], env, d.name, [d], []) == Ok([d])
  {
    assert FromRequest(map[], env, [d], 0) == Ok([]);
    assert [] + [d] == [d];
    assert FromRequest(map[], env, [d], 1) == Ok([d]);
  }

  // ---------------------------------------------------------------- the write index of an alias

  /** Writes to `name` may go to n: the index of that name, a designated write index, or the only index not opted out. */
  ghost predicate WriteTarget(ixs: Indices, name: string, n: string) {
    if name in ixs then n == name
    else
      && Has(ixs, n, name)
      && (Writes(ixs[n][name]) || (ixs[n][name].isWrite == None && forall m :: Has(ixs, m, name) ==> m == n))
  }

  lemma NoTarget(ixs: Indices, name: string, ts: seq<string>)
    requires name !in ixs && ListedBy(ts, Bearers(ixs, name)) && |ts| > 0
    requires forall k :: 0 <= k < |ts| ==> Has(ixs, ts[k], name) && !Writes(ixs[ts[k]][name])
    requires |ts| == 1 ==> Has(ixs, ts[0], name) && ixs[ts[0]][name].isWrite == Some(false)
    ensures forall n :: !WriteTarget(ixs, name, n)
  {
    forall n ensures !WriteTarget(ixs, name, n) {
      if Has(ixs, n, name) {
        assert n in ts;
        if |ts| > 1 {
          assert ts[0] in ts && ts[1] in ts && Has(ixs, ts[0], name) && Has(ixs, ts[1], name);
        }
      }
    }
  }

  lemma OnlyBearer(ixs: Indices, name: string, ts: seq<string>)
    requires ListedBy(ts, Bearers(ixs, name)) && |ts| == 1
    ensures forall m :: Has(ixs, m, name) ==> m == ts[0]
  {
    forall m | Has(ixs, m, name) ensures m == ts[0] {
      assert m in ts;
    }
  }

  /** The answer of writeIndex does not depend on any order. */
  lemma WriteTargetUnique(ixs: Indices, name: string, m: string, n: string)
    requires Consistent(ixs) && WriteTarget(ixs, name, m) && WriteTarget(ixs, name, n)
    ensures m == n
  {
    assert GoodAlias(ixs, name);
  }

  // ---------------------------------------------------------------- whole runs

  datatype Request =
    | Update(env: Env, actions: seq<Action>)
    | Create(env: Env, name: string, request: seq<Def>, templates: seq<seq<Def>>)
    | Delete(env: Env, expr: string)

  /** The state after a request, as the methods of the cluster leave it. */
  ghost function After(ixs: Indices, q: Request): Indices
    requires Sane(q.env, ixs)
  {
    match q
    case Update(env, actions) => Updated(ixs, env, actions)
    case Create(env, name, request, templates) => WithIndex(ixs, env, name, request, templates)
    case Delete(env, expr) => Without(ixs, env, expr)
  }

  /** The request creates an index that is its own alias. */
  ghost predicate OwnAlias(ixs: Indices, q: Request) {
    && q.Create? && CanCreate(ixs, q.env, q.name, q.request, q.templates)
    && q.name in Names(NewAliases(ixs, q.env, q.name, q.request, q.templates).value)
  }

  lemma RequestKeeps(ixs: Indices, q: Request)
    requires Sane(q.env, ixs) && Consistent(ixs)
    ensures Consistent(After(ixs, q))
    ensures Disjoint(ixs) ==> (Disjoint(After(ixs, q)) <==> !OwnAlias(ixs, q))
  {
    match q
    case Update(env, actions) =>
      if Disjoint(ixs) && Planned(ixs, env, actions).Ok? {
        PlannedDisjoint(ixs, env, actions);
      }
    case Create(env, name, request, templates) =>
      if Disjoint(ixs) && CanCreate(ixs, env, name, request, templates) {
        CreateDisjoint(ixs, env, name, request, templates);
      }
    case Delete(env, expr) =>
      if env.resolve(expr).Some? {
        FewerIsConsistent(ixs, set n | n in env.resolve(expr).value);
      }
  }

  ghost predicate Run(ixs: Indices, qs: seq<Request>, end: Indices)
    decreases |qs|
  {
    if qs == [] then end == ixs
    else Sane(qs[0].env, ixs) && Run(After(ixs, qs[0]), qs[1..], end)
  }

  ghost predicate NoOwnAlias(ixs: Indices, qs: seq<Request>)
    decreases |qs|
  {
    qs != [] ==> Sane(qs[0].env, ixs) && !OwnAlias(ixs, qs[0]) && NoOwnAlias(After(ixs, qs[0]), qs[1..])
  }

  /** Over every run from a consistent cluster. */
  lemma {:induction false} RunKeeps(ixs: Indices, qs: seq<Request>, end: Indices)
    requires Consistent(ixs) && Run(ixs, qs, end)
    ensures Consistent(end)
    ensures Disjoint(ixs) && NoOwnAlias(ixs, qs) ==> Disjoint(end)
    decreases |qs|
  {
    if qs != [] {
      RequestKeeps(ixs, qs[0]);
      RunKeeps(After(ixs, qs[0]), qs[1..], end);
    }
  }
}

/**
 * The request router of http_router.go: registering routes in the trie, finding the route of a
 * request over the four lookup modes, and binding its path variables.
 *
 * The nodes of the trie are entries of one field, and a pointer to a node is its id.
 */
module Router {
  import opened Options
  import opened PathTrie
  import opened RouteTable
  import Strings

  // ---------------------------------------------------------------- the router

  ghost predicate Holds(nodes: Nodes, routes: seq<Route>)
    requires Closed(nodes) && 0 in nodes
  {
    forall key :: key != [] ==> HandlersAt(nodes, 0, key) == Registered(routes, key)
  }

  /** addRouteMethods */
  method AddRouteMethods(h: Option<Handlers>, r: Route) returns (out: Handlers)
    ensures out == Added(h, r)
  {
    out := if h == None then Handlers(r.pattern, map[]) else h.value;
    ghost var before := out;
    var left := r.methods;
    while left != {}
      invariant left <= r.methods && out.pattern == before.pattern
      invariant out.methods == AllTo(r.methods - left, r) + before.methods
      decreases |left|
    {
      var m :| m in left;
      left := left - {m};
      if m !in out.methods {
        out := out.(methods := out.methods[m := r]);
      }
    }
    assert r.methods - {} == r.methods;
  }

  /** No pattern has a segment named "*". */
  ghost predicate StarFree(routes: seq<Route>) { forall r :: r in routes ==> "*" !in r.pattern }

  lemma StarFreeSnoc(routes: seq<Route>, r: Route)
    ensures StarFree(routes + [r]) <==> StarFree(routes) && "*" !in r.pattern
  {
    assert r in routes + [r];
  }

  /** The trie holds the routes, under their keys; nextId is a new node. */
  ghost predicate Shape(nodes: Nodes, keys: map<NodeId, seq<Seg>>, nextId: NodeId, routes: seq<Route>, starFree: bool) {
    && Keyed(nodes, keys) && (forall id :: id in nodes ==> id < nextId)
    && Holds(nodes, routes) && (starFree ==> NoStar(nodes))
  }

  class Router {
    var nodes: Nodes
    var rootHandlers: Option<Handlers>
    var nextId: NodeId                           // the next node
    ghost var keys: map<NodeId, seq<Seg>>
    ghost var routes: seq<Route>                 // what was inserted

    ghost predicate Valid()
      reads this
    {
      Shape(nodes, keys, nextId, routes, StarFree(routes)) && rootHandlers == Registered(routes, [])
    }

    constructor ()
      ensures Valid() && routes == []
    {
      nodes := map[0 := EMPTY];
      rootHandlers := None;
      nextId := 1;
      keys := map[0 := []];
      routes := [];
      new;
      forall key: seq<Seg> | key != [] ensures HandlersAt(nodes, 0, key) == None {
        assert Edge(EMPTY, key[0]) == None;
      }
    }

    /** The node behind an edge, which is made when there is none. */
    method ChildFor(node: NodeId, seg: Seg, ghost known: seq<Route>, ghost starFree: bool) returns (next: NodeId)
      requires Shape(nodes, keys, nextId, known, starFree) && node in nodes && (starFree ==> seg != Lit("*"))
      modifies this`nodes, this`keys, this`nextId
      ensures Shape(nodes, keys, nextId, known, starFree)
      ensures next in nodes && keys[next] == old(keys)[node] + [seg]
    {
      hide Shape, Edge, Grown;
      var edge := Edge(nodes[node], seg);
      if edge.Some? {
        EdgeShape(nodes, keys, nextId, known, starFree, node, seg);
        return edge.value;
      }
      GrownShape(nodes, keys, nextId, known, starFree, node, seg);
      keys := keys[nextId := keys[node] + [seg]];
      nodes := Grown(nodes, node, seg, nextId);
      nextId := nextId + 1;
      return nextId - 1;
    }

    /** Down the trie, with new nodes where there are none, to the handlers of the pattern. */
    method Insert(r: Route)
      requires Valid()
      modifies this
      ensures Valid() && routes == old(routes) + [r]
    {
      ghost var starFree := StarFree(routes + [r]);
      StarFreeSnoc(routes, r);
      routes := routes + [r];
      if r.pattern == [] {
        var h := AddRouteMethods(rootHandlers, r);
        rootHandlers := Some(h);
        RootHolds(nodes, old(routes), r);
        return;
      }
      ghost var key := Key(r.pattern);
      var node := 0;
      for i := 0 to |r.pattern|
        invariant Shape(nodes, keys, nextId, old(routes), starFree)
        invariant node in nodes && keys[node] == key[..i]
        invariant rootHandlers == old(rootHandlers) && routes == old(routes) + [r]
      {
        KeyNext(r.pattern, i);
        node := ChildFor(node, SegOf(r.pattern[i]), old(routes), starFree);
      }
      assert key[..|r.pattern|] == key;
      var h := AddRouteMethods(nodes[node].handlers, r);
      InsertShape(nodes, keys, nextId, old(routes), starFree, node, h, r);
      nodes := WithHandlers(nodes, node, h);
    }

    // ---------------------------------------------------------------- lookups

    function Retrieve(tokens: seq<string>, mode: Mode): (h: Option<Handlers>)
      requires Closed(nodes) && 0 in nodes
      reads this
    {
      if tokens == [] then rootHandlers
      else PathTrie.Retrieve(nodes, 0, tokens, if tokens[0] == "" then 1 else 0, mode)
    }

    ghost function MethodsIn(tokens: seq<string>, mode: Mode): set<Method>
      requires Closed(nodes) && 0 in nodes
      reads this
    {
      match Retrieve(tokens, mode)
      case None => {}
      case Some(h) => h.methods.Keys
    }

    /** The methods that some lookup mode finds. */
    ghost function AllMethods(tokens: seq<string>): set<Method>
      requires Closed(nodes) && 0 in nodes
      reads this
    {
      MethodsIn(tokens, ExplicitOnly) + MethodsIn(tokens, WildcardRoot) + MethodsIn(tokens, WildcardLeaf) + MethodsIn(tokens, WildcardNodes)
    }

    /** validMethodsOf, without the order in which the methods are printed. */
    method ValidMethodsOf(tokens: seq<string>) returns (valid: set<Method>)
      requires Valid()
      ensures valid == AllMethods(tokens)
    {
      valid := {};
      for k := 0 to 4
        invariant valid == (if k > 0 then MethodsIn(tokens, ExplicitOnly) else {})
                         + (if k > 1 then MethodsIn(tokens, WildcardRoot) else {})
                         + (if k > 2 then MethodsIn(tokens, WildcardLeaf) else {})
                         + (if k > 3 then MethodsIn(tokens, WildcardNodes) else {})
      {
        var handlers := Retrieve(tokens, MODES[k]);
        if handlers.Some? {
          valid := valid + handlers.value.methods.Keys;
        }
      }
    }

    /** The first mode that has the method. */
    ghost predicate FoundIn(tokens: seq<string>, m: Method, k: nat)
      requires Closed(nodes) && 0 in nodes && k < 4
      reads this
    {
      m in MethodsIn(tokens, MODES[k]) && forall j :: 0 <= j < k ==> m !in MethodsIn(tokens, MODES[j])
    }

    /** The answer to a request, in terms of the routes that were inserted. */
    ghost predicate Answers(m: Method, tokens: seq<string>, decode: string -> Option<string>, out: Outcome)
      requires Closed(nodes) && 0 in nodes
      reads this
    {
      match out
      case Found(r, vars) =>
        && m in AllMethods(tokens)
        && PatternFits(r.pattern, Segments(tokens)) && FirstRegistered(routes, r, m)
        && vars == Bound(r.pattern, Segments(tokens), decode)
        && exists k :: 0 <= k < 4 && FoundIn(tokens, m, k) && r == Retrieve(tokens, MODES[k]).value.methods[m]
      case Allowed(valid) => m == OPTIONS && m !in valid && valid == AllMethods(tokens)
      case NotAllowed(valid) => m != OPTIONS && m !in valid && valid == AllMethods(tokens) && valid != {}
      case NoHandler => m != OPTIONS && AllMethods(tokens) == {}
    }

    /**
     * A route is found exactly when the method is one of the valid ones; otherwise they are reported.
     * The route is the first one registered with its pattern for the method, and the pattern fits.
     */
    method Dispatch(m: Method, rawPath: string, decode: string -> Option<string>) returns (out: Outcome)
      requires Valid()
      ensures Answers(m, PathTokens(rawPath), decode, out)
    {
      var tokens := PathTokens(rawPath);
      var valid: set<Method> := {};
      var validKnown := false;
      for k := 0 to 4
        invariant validKnown ==> valid == AllMethods(tokens)
        invariant k > 0 ==> validKnown && (m in valid || (m != OPTIONS && valid == {}))
        invariant NotBefore(this, tokens, m, k)
      {
        var handlers := Retrieve(tokens, MODES[k]);
        if handlers.Some? && m in handlers.value.methods {
          var r := handlers.value.methods[m];
          FoundRoute(this, tokens, MODES[k], m);
          var vars := BindPathVars(r.pattern, tokens, decode);
          FoundAnswers(this, tokens, m, k, decode, vars);
          return Found(r, vars);
        }
        NotHere(this, tokens, m, k);
        if !validKnown {
          valid := ValidMethodsOf(tokens);
          validKnown := true;
        }
        if m in valid {
          continue;
        }
        if m == OPTIONS {
          return Allowed(valid);
        }
        if valid != {} {
          return NotAllowed(valid);
        }
      }
      NoMode(this, tokens, m);
      return NoHandler;
    }
  }

  ghost predicate NotBefore(rt: Router, tokens: seq<string>, m: Method, k: nat)
    requires Closed(rt.nodes) && 0 in rt.nodes && k <= 4
    reads rt
  {
    forall j :: 0 <= j < k ==> m !in rt.MethodsIn(tokens, MODES[j])
  }

  lemma NotHere(rt: Router, tokens: seq<string>, m: Method, k: nat)
    requires Closed(rt.nodes) && 0 in rt.nodes && k < 4 && NotBefore(rt, tokens, m, k)
    requires rt.Retrieve(tokens, MODES[k]).Some? ==> m !in rt.Retrieve(tokens, MODES[k]).value.methods
    ensures NotBefore(rt, tokens, m, k + 1)
  {
  }

  lemma NoMode(rt: Router, tokens: seq<string>, m: Method)
    requires Closed(rt.nodes) && 0 in rt.nodes && NotBefore(rt, tokens, m, 4)
    ensures m !in rt.AllMethods(tokens)
  {
    assert MODES[0] == ExplicitOnly && MODES[1] == WildcardRoot && MODES[2] == WildcardLeaf && MODES[3] == WildcardNodes;
  }

  lemma FoundAnswers(rt: Router, tokens: seq<string>, m: Method, k: nat, decode: string -> Option<string>, vars: map<string, string>)
    requires Closed(rt.nodes) && 0 in rt.nodes && k < 4 && NotBefore(rt, tokens, m, k)
    requires rt.Retrieve(tokens, MODES[k]).Some? && m in rt.Retrieve(tokens, MODES[k]).value.methods
    requires var r := rt.Retrieve(tokens, MODES[k]).value.methods[m];
             && Fits(Key(r.pattern), Segments(tokens)) && FirstFor(rt.routes, Key(r.pattern), m, r)
             && vars == Bound(r.pattern, Segments(tokens), decode)
    ensures rt.Answers(m, tokens, decode, Found(rt.Retrieve(tokens, MODES[k]).value.methods[m], vars))
  {
    var r := rt.Retrieve(tokens, MODES[k]).value.methods[m];
    FitsByText(r.pattern, Segments(tokens));
    FirstByText(rt.routes, r, m);
    assert m in rt.MethodsIn(tokens, MODES[k]);
    assert rt.FoundIn(tokens, m, k);
    assert m in rt.AllMethods(tokens);
  }

  /** The order in which the modes are tried. */
  const MODES := [ExplicitOnly, WildcardRoot, WildcardLeaf, WildcardNodes]

  datatype Outcome =
    | Found(route: Route, vars: map<string, string>)
    | Allowed(valid: set<Method>)
    | NotAllowed(valid: set<Method>)
    | NoHandler

  // ---------------------------------------------------------------- paths and their variables

  /** javaSplitPath */
  function PathTokens(path: string): (tokens: seq<string>)
    ensures tokens != [] ==> tokens[|tokens| - 1] != ""
  {
    Strings.DropTrailing(Strings.Split(path, '/'))
  }

  /** The tokens after the one before the leading slash. */
  function Segments(tokens: seq<string>): seq<string> {
    if tokens != [] && tokens[0] == "" then tokens[1..] else tokens
  }

  predicate Brace(c: char) { c == '{' || c == '}' }

  /** strings.Trim(seg, "{}") */
  function VarName(seg: string): (name: string) { Strings.TrimFunc(seg, Brace) }

  function Decoded(text: string, decode: string -> Option<string>): string {
    match decode(text)
    case None => text
    case Some(d) => d
  }

  /** Every named wildcard has the decoded segment at its place; of equal names the last counts. */
  function Bound(pattern: seq<string>, segments: seq<string>, decode: string -> Option<string>): (vars: map<string, string>)
    requires |pattern| <= |segments|
  {
    if pattern == [] then map[]
    else
      var i := |pattern| - 1;
      var before := Bound(pattern[..i], segments, decode);
      if NamedWildcard(pattern[i]) then before[VarName(pattern[i]) := Decoded(segments[i], decode)] else before
  }

  method BindPathVars(pattern: seq<string>, tokens: seq<string>, decode: string -> Option<string>) returns (vars: map<string, string>)
    requires |pattern| <= |Segments(tokens)|
    ensures vars == Bound(pattern, Segments(tokens), decode)
  {
    var segments := tokens;
    if |tokens| > 0 && tokens[0] == "" {
      segments := tokens[1..];
    }
    vars := map[];
    for i := 0 to |pattern|
      invariant vars == Bound(pattern[..i], segments, decode)
    {
      assert pattern[..i + 1][..i] == pattern[..i];
      if i >= |segments| || !NamedWildcard(pattern[i]) {
        continue;
      }
      vars := vars[VarName(pattern[i]) := Decoded(segments[i], decode)];
    }
    assert pattern[..|pattern|] == pattern;
  }

  /** A variable has the decoded segment of the last wildcard with its name. */
  lemma {:induction false} BoundExact(pattern: seq<string>, segments: seq<string>, decode: string -> Option<string>, i: nat)
    requires |pattern| <= |segments| && i < |pattern| && NamedWildcard(pattern[i])
    requires forall j :: i < j < |pattern| && NamedWildcard(pattern[j]) ==> VarName(pattern[j]) != VarName(pattern[i])
    ensures VarName(pattern[i]) in Bound(pattern, segments, decode)
    ensures Bound(pattern, segments, decode)[VarName(pattern[i])] == Decoded(segments[i], decode)
  {
    var n := |pattern| - 1;
    if i < n {
      assert pattern[..n][i] == pattern[i];
      BoundExact(pattern[..n], segments, decode, i);
    }
  }

  /** There are no other variables. */
  lemma {:induction false} BoundOnly(pattern: seq<string>, segments: seq<string>, decode: string -> Option<string>, name: string)
    requires |pattern| <= |segments| && name in Bound(pattern, segments, decode)
    ensures exists i :: 0 <= i < |pattern| && NamedWildcard(pattern[i]) && VarName(pattern[i]) == name
  {
    var n := |pattern| - 1;
    if !(NamedWildcard(pattern[n]) && VarName(pattern[n]) == name) {
      BoundOnly(pattern[..n], segments, decode, name);
      var i :| 0 <= i < n && NamedWildcard(pattern[..n][i]) && VarName(pattern[..n][i]) == name;
      assert pattern[i] == pattern[..n][i];
    }
  }

  /** The name of a variable is its segment without the braces at both ends. */
  lemma VarNameTrims(seg: string) returns (i: nat, j: nat)
    ensures i <= j <= |seg| && VarName(seg) == seg[i..j]
    ensures forall k :: (0 <= k < i || j <= k < |seg|) ==> seg[k] == '{' || seg[k] == '}'
    ensures i < j ==> !Brace(seg[i]) && !Brace(seg[j - 1])
  {
    i, j := Strings.TrimExact(seg, Brace);
  }

  // ---------------------------------------------------------------- what a lookup finds

  lemma FoundRoute(rt: Router, tokens: seq<string>, mode: Mode, m: Method)
    requires rt.Valid() && rt.Retrieve(tokens, mode).Some? && m in rt.Retrieve(tokens, mode).value.methods
    requires tokens != [] ==> tokens[|tokens| - 1] != ""
    ensures var r := rt.Retrieve(tokens, mode).value.methods[m];
            Fits(Key(r.pattern), Segments(tokens)) && FirstFor(rt.routes, Key(r.pattern), m, r)
  {
    var h := rt.Retrieve(tokens, mode).value;
    var key: seq<Seg> := [];
    if tokens != [] {
      key := RetrieveSound(rt.nodes, 0, tokens, if tokens[0] == "" then 1 else 0, mode);
      assert key != [];
    }
    assert Registered(rt.routes, key) == Some(h);
    RegisteredExact(rt.routes, key);
    assert MethodExact(rt.routes, key, h.methods, m);
  }

  /** In every mode, the handlers are those of the registered key that the mode finds. */
  lemma ModeLookup(rt: Router, tokens: seq<string>, mode: Mode) returns (key: seq<Seg>)
    requires rt.Valid() && StarFree(rt.routes) && Segments(tokens) != []
    ensures Finds(rt.nodes, 0, tokens, if tokens[0] == "" then 1 else 0, mode, rt.Retrieve(tokens, mode), key)
    ensures forall q :: q != [] ==> HandlersAt(rt.nodes, 0, q) == Registered(rt.routes, q)
  {
    key := RetrieveExact(rt.nodes, 0, tokens, if tokens[0] == "" then 1 else 0, mode);
  }

  /** The lookup with wildcards anywhere, in terms of the routes. */
  ghost predicate Winner(routes: seq<Route>, segments: seq<string>, key: seq<Seg>) {
    && Fits(key, segments) && HasKey(routes, key)
    && forall q :: Fits(q, segments) && HasKey(routes, q) ==> Prefers(key, q)
  }

  /** It answers with the handlers of the best pattern that fits, and with none exactly when no pattern fits. */
  lemma WildcardLookup(rt: Router, tokens: seq<string>) returns (key: seq<Seg>)
    requires rt.Valid() && StarFree(rt.routes) && (tokens != [] ==> tokens[|tokens| - 1] != "")
    ensures match rt.Retrieve(tokens, WildcardNodes)
            case None => forall q :: Fits(q, Segments(tokens)) ==> !HasKey(rt.routes, q)
            case Some(h) => Winner(rt.routes, Segments(tokens), key) && Registered(rt.routes, key) == Some(h)
  {
    key := [];
    var segments := Segments(tokens);
    if tokens != [] {
      var index := if tokens[0] == "" then 1 else 0;
      key := RetrieveBest(rt.nodes, 0, tokens, index);
      assert tokens[index..] == segments;
    }
    forall q | Fits(q, segments) ensures HasKey(rt.routes, q) <==> Registered(rt.routes, q).Some? {
      RegisteredExact(rt.routes, q);
    }
  }

  lemma RootHolds(nodes: Nodes, routes: seq<Route>, r: Route)
    requires Closed(nodes) && 0 in nodes && Holds(nodes, routes) && r.pattern == []
    ensures Holds(nodes, routes + [r])
    ensures Registered(routes + [r], []) == Some(Added(Registered(routes, []), r))
  {
    assert (routes + [r])[..|routes|] == routes;
  }

  lemma InsertShape(nodes: Nodes, keys: map<NodeId, seq<Seg>>, nextId: NodeId, routes: seq<Route>, starFree: bool, node: NodeId, h: Handlers, r: Route)
    requires Shape(nodes, keys, nextId, routes, starFree) && node in nodes && keys[node] == Key(r.pattern) && r.pattern != []
    requires h == Added(nodes[node].handlers, r)
    ensures Shape(WithHandlers(nodes, node, h), keys, nextId, routes + [r], starFree)
    ensures Registered(routes + [r], []) == Registered(routes, [])
  {
    SetHandlers(nodes, keys, node, h);
    assert (routes + [r])[..|routes|] == routes;
    assert nodes[node].handlers == HandlersAt(nodes, 0, keys[node]);
  }

  lemma EdgeShape(nodes: Nodes, keys: map<NodeId, seq<Seg>>, nextId: NodeId, routes: seq<Route>, starFree: bool, node: NodeId, seg: Seg)
    requires Shape(nodes, keys, nextId, routes, starFree) && node in nodes && Edge(nodes[node], seg).Some?
    ensures var next := Edge(nodes[node], seg).value; next in nodes && next in keys && keys[next] == keys[node] + [seg]
  {
  }

  lemma GrownShape(nodes: Nodes, keys: map<NodeId, seq<Seg>>, nextId: NodeId, routes: seq<Route>, starFree: bool, node: NodeId, seg: Seg)
    requires Shape(nodes, keys, nextId, routes, starFree) && node in nodes && Edge(nodes[node], seg) == None
    requires starFree ==> seg != Lit("*")
    ensures node in keys && nextId in Grown(nodes, node, seg, nextId)
    ensures Shape(Grown(nodes, node, seg, nextId), keys[nextId := keys[node] + [seg]], nextId + 1, routes, starFree)
  {
    GrownKeyed(nodes, keys, node, seg, nextId);
    GrownHolds(nodes, routes, node, seg, nextId);
  }

  lemma GrownHolds(nodes: Nodes, routes: seq<Route>, id: NodeId, seg: Seg, added: NodeId)
    requires CanGrow(nodes, id, seg, added) && 0 in nodes && Holds(nodes, routes)
    ensures Closed(Grown(nodes, id, seg, added)) && Holds(Grown(nodes, id, seg, added), routes)
  {
    GrownClosed(nodes, id, seg, added);
    forall key | key != [] ensures HandlersAt(Grown(nodes, id, seg, added), 0, key) == Registered(routes, key) {
      GrownWalk(nodes, id, seg, added, 0, key);
    }
  }

  /** When every route has a method, a path has valid methods exactly when some pattern fits it. */
  lemma SomeMethodValid(rt: Router, tokens: seq<string>)
    requires rt.Valid() && StarFree(rt.routes) && (tokens != [] ==> tokens[|tokens| - 1] != "")
    requires forall r :: r in rt.routes ==> r.methods != {}
    ensures rt.AllMethods(tokens) != {} <==> exists q :: Fits(q, Segments(tokens)) && HasKey(rt.routes, q)
  {
    if rt.AllMethods(tokens) != {} {
      var m :| m in rt.AllMethods(tokens);
      var mode := if m in rt.MethodsIn(tokens, ExplicitOnly) then ExplicitOnly
                  else if m in rt.MethodsIn(tokens, WildcardRoot) then WildcardRoot
                  else if m in rt.MethodsIn(tokens, WildcardLeaf) then WildcardLeaf
                  else WildcardNodes;
      FoundRoute(rt, tokens, mode, m);
      var r := rt.Retrieve(tokens, mode).value.methods[m];
      assert HasKey(rt.routes, Key(r.pattern));
    }
    if exists q :: Fits(q, Segments(tokens)) && HasKey(rt.routes, q) {
      var key := WildcardLookup(rt, tokens);
      var h := rt.Retrieve(tokens, WildcardNodes).value;
      var r :| r in rt.routes && Key(r.pattern) == key;
      var m :| m in r.methods;
      RegisteredExact(rt.routes, key);
      assert MethodExact(rt.routes, key, h.methods, m) && Serves(rt.routes, key, m);
      assert m in rt.MethodsIn(tokens, WildcardNodes);
    }
  }
}

/**
 * What registering routes means, http_router.go: the handlers of every key after a list of
 * registrations, and the effect of a new edge or of new handlers on the trie.
 */
module RouteTable {
  import opened Options
  import opened PathTrie

  predicate NamedWildcard(seg: string) {
    seg != "" && seg[0] == '{' && seg[|seg| - 1] == '}'
  }

  function SegOf(text: string): Seg { if NamedWildcard(text) then Wild else Lit(text) }

  function Key(pattern: seq<string>): (key: seq<Seg>)
    ensures |key| == |pattern| && forall i :: 0 <= i < |key| ==> key[i] == SegOf(pattern[i])
  {
    seq(|pattern|, i requires 0 <= i < |pattern| => SegOf(pattern[i]))
  }

  // ---------------------------------------------------------------- keys in terms of the texts of patterns

  /** The pattern has the segments of the path, with any segment where it has a named wildcard. */
  predicate PatternFits(pattern: seq<string>, segments: seq<string>) {
    |pattern| == |segments| && forall i :: 0 <= i < |pattern| ==> NamedWildcard(pattern[i]) || pattern[i] == segments[i]
  }

  /** Named wildcards at the same places, whatever their names, and the same texts elsewhere. */
  predicate SameShape(p: seq<string>, q: seq<string>) {
    |p| == |q| && forall i :: 0 <= i < |p| ==> if NamedWildcard(p[i]) then NamedWildcard(q[i]) else p[i] == q[i]
  }

  lemma FitsByText(pattern: seq<string>, segments: seq<string>)
    ensures Fits(Key(pattern), segments) <==> PatternFits(pattern, segments)
  {
    var key := Key(pattern);
    if Fits(key, segments) {
      forall i | 0 <= i < |pattern| ensures NamedWildcard(pattern[i]) || pattern[i] == segments[i] {
        assert key[i] == SegOf(pattern[i]) && (key[i] == Wild || key[i] == Lit(segments[i]));
      }
    }
  }

  lemma SameKeyByText(p: seq<string>, q: seq<string>)
    ensures Key(p) == Key(q) <==> SameShape(p, q)
  {
    var k, l := Key(p), Key(q);
    if k == l {
      forall i | 0 <= i < |p| ensures if NamedWildcard(p[i]) then NamedWildcard(q[i]) else p[i] == q[i] {
        assert k[i] == SegOf(p[i]) && l[i] == SegOf(q[i]);
      }
    }
  }

  ghost predicate FirstRegisteredAt(routes: seq<Route>, r: Route, m: Method, i: nat) {
    && i < |routes| && routes[i] == r && m in r.methods
    && forall j :: 0 <= j < i && SameShape(routes[j].pattern, r.pattern) ==> m !in routes[j].methods
  }

  /** The route was registered for the method before all other routes of the same shape that have it. */
  ghost predicate FirstRegistered(routes: seq<Route>, r: Route, m: Method) {
    exists i: nat :: FirstRegisteredAt(routes, r, m, i)
  }

  lemma FirstByText(routes: seq<Route>, r: Route, m: Method)
    ensures FirstFor(routes, Key(r.pattern), m, r) <==> FirstRegistered(routes, r, m)
  {
    forall j | 0 <= j < |routes| ensures Key(routes[j].pattern) == Key(r.pattern) <==> SameShape(routes[j].pattern, r.pattern) {
      SameKeyByText(routes[j].pattern, r.pattern);
    }
    hide SameShape, Key;
    if FirstFor(routes, Key(r.pattern), m, r) {
      var i :| 0 <= i < |routes| && FirstAt(routes, Key(r.pattern), m, i) && routes[i] == r;
      assert FirstRegisteredAt(routes, r, m, i);
    }
    if i: nat :| FirstRegisteredAt(routes, r, m, i) {
      assert FirstAt(routes, Key(r.pattern), m, i);
    }
  }

  // ---------------------------------------------------------------- what a list of routes registers

  function AllTo(methods: set<Method>, r: Route): (t: map<Method, Route>) {
    map m | m in methods :: r
  }

  /** The first route registered for a method keeps it. */
  function Added(h: Option<Handlers>, r: Route): (out: Handlers) {
    match h
    case None => Handlers(r.pattern, AllTo(r.methods, r))
    case Some(known) => known.(methods := AllTo(r.methods, r) + known.methods)
  }

  /** The handlers of a key after a list of registrations. */
  function Registered(routes: seq<Route>, key: seq<Seg>): (h: Option<Handlers>) {
    if routes == [] then None
    else
      var before := Registered(routes[..|routes| - 1], key);
      var r := routes[|routes| - 1];
      if Key(r.pattern) == key then Some(Added(before, r)) else before
  }

  /** r is the first route with its key for the method. */
  ghost predicate FirstFor(routes: seq<Route>, key: seq<Seg>, m: Method, r: Route) {
    exists i :: 0 <= i < |routes| && FirstAt(routes, key, m, i) && routes[i] == r
  }

  ghost predicate FirstAt(routes: seq<Route>, key: seq<Seg>, m: Method, i: nat)
    requires i < |routes|
  {
    && Key(routes[i].pattern) == key && m in routes[i].methods
    && forall j :: 0 <= j < i && Key(routes[j].pattern) == key ==> m !in routes[j].methods
  }

  ghost predicate HasKey(routes: seq<Route>, key: seq<Seg>) { exists r :: r in routes && Key(r.pattern) == key }

  ghost predicate Serves(routes: seq<Route>, key: seq<Seg>, m: Method) {
    exists r :: r in routes && Key(r.pattern) == key && m in r.methods
  }

  lemma KeySnoc(routes: seq<Route>, r: Route, key: seq<Seg>)
    ensures HasKey(routes + [r], key) <==> HasKey(routes, key) || Key(r.pattern) == key
  {
    assert r in routes + [r];
  }

  lemma ServesSnoc(routes: seq<Route>, r: Route, key: seq<Seg>, m: Method)
    ensures Serves(routes + [r], key, m) <==> Serves(routes, key, m) || (Key(r.pattern) == key && m in r.methods)
  {
    assert r in routes + [r];
  }

  lemma FirstStays(routes: seq<Route>, r: Route, key: seq<Seg>, m: Method, x: Route)
    requires FirstFor(routes, key, m, x)
    ensures FirstFor(routes + [r], key, m, x)
  {
    var i :| 0 <= i < |routes| && FirstAt(routes, key, m, i) && routes[i] == x;
    assert FirstAt(routes + [r], key, m, i);
  }

  lemma FirstNew(routes: seq<Route>, r: Route, key: seq<Seg>, m: Method)
    requires !Serves(routes, key, m) && Key(r.pattern) == key && m in r.methods
    ensures FirstFor(routes + [r], key, m, r)
  {
    var longer := routes + [r];
    forall j | 0 <= j < |routes| && Key(longer[j].pattern) == key ensures m !in longer[j].methods {
      assert routes[j] in routes;
    }
    assert FirstAt(longer, key, m, |routes|) && longer[|routes|] == r;
  }

  /** A key has handlers when some route has it, and each of its methods belongs to the first route with it. */
  ghost predicate Exact(routes: seq<Route>, key: seq<Seg>, h: Option<Handlers>) {
    && (h.Some? <==> HasKey(routes, key))
    && (h.Some? ==> forall m :: MethodExact(routes, key, h.value.methods, m))
  }

  ghost predicate MethodExact(routes: seq<Route>, key: seq<Seg>, methods: map<Method, Route>, m: Method) {
    if m in methods then FirstFor(routes, key, m, methods[m]) else !Serves(routes, key, m)
  }

  lemma NoKeyNoService(routes: seq<Route>, key: seq<Seg>, m: Method)
    requires !HasKey(routes, key)
    ensures !Serves(routes, key, m)
  {
  }

  lemma ExactSnoc(routes: seq<Route>, r: Route, key: seq<Seg>, h: Option<Handlers>)
    requires Exact(routes, key, h)
    ensures Exact(routes + [r], key, if Key(r.pattern) == key then Some(Added(h, r)) else h)
  {
    KeySnoc(routes, r, key);
    if Key(r.pattern) == key {
      forall m ensures MethodExact(routes + [r], key, Added(h, r).methods, m) {
        AddedMethod(routes, r, key, h, m);
      }
    } else if h.Some? {
      forall m ensures MethodExact(routes + [r], key, h.value.methods, m) {
        assert MethodExact(routes, key, h.value.methods, m);
        ServesSnoc(routes, r, key, m);
        if m in h.value.methods {
          FirstStays(routes, r, key, m, h.value.methods[m]);
        }
      }
    }
  }

  lemma AddedMethod(routes: seq<Route>, r: Route, key: seq<Seg>, h: Option<Handlers>, m: Method)
    requires Exact(routes, key, h) && Key(r.pattern) == key
    ensures MethodExact(routes + [r], key, Added(h, r).methods, m)
  {
    ServesSnoc(routes, r, key, m);
    if h == None {
      NoKeyNoService(routes, key, m);
    } else {
      assert MethodExact(routes, key, h.value.methods, m);
    }
    if h.Some? && m in h.value.methods {
      FirstStays(routes, r, key, m, h.value.methods[m]);
    } else if m in r.methods {
      FirstNew(routes, r, key, m);
    }
  }

  lemma {:induction false} RegisteredExact(routes: seq<Route>, key: seq<Seg>)
    ensures Exact(routes, key, Registered(routes, key))
  {
    if routes != [] {
      var n := |routes| - 1;
      RegisteredExact(routes[..n], key);
      ExactSnoc(routes[..n], routes[n], key, Registered(routes[..n], key));
      assert routes == routes[..n] + [routes[n]];
    }
  }

  // ---------------------------------------------------------------- the shape of the trie

  /** keys gives every node its path from the root; edges extend it. */
  ghost predicate Keyed(nodes: Nodes, keys: map<NodeId, seq<Seg>>) {
    && Closed(nodes) && keys.Keys == nodes.Keys && 0 in nodes && keys[0] == []
    && (forall id :: id in keys ==> Walk(nodes, 0, keys[id]) == Some(id))
    && (forall id, seg :: id in nodes && Edge(nodes[id], seg).Some? ==> keys[Edge(nodes[id], seg).value] == keys[id] + [seg])
  }

  function WithEdge(n: Node, seg: Seg, to: NodeId): (r: Node)
    ensures Edge(r, seg) == Some(to) && r.handlers == n.handlers
    ensures forall s :: s != seg ==> Edge(r, s) == Edge(n, s)
  {
    match seg
    case Wild => n.(wildcard := Some(to))
    case Lit(t) => n.(children := n.children[t := to])
  }

  /** A node without handlers at the end of a new edge. */
  function Grown(nodes: Nodes, id: NodeId, seg: Seg, added: NodeId): Nodes
    requires id in nodes
  {
    nodes[id := WithEdge(nodes[id], seg, added)][added := EMPTY]
  }

  ghost predicate CanGrow(nodes: Nodes, id: NodeId, seg: Seg, added: NodeId) {
    Closed(nodes) && id in nodes && added !in nodes && Edge(nodes[id], seg) == None
  }

  lemma GrownClosed(nodes: Nodes, id: NodeId, seg: Seg, added: NodeId)
    requires CanGrow(nodes, id, seg, added)
    ensures Closed(Grown(nodes, id, seg, added))
  {
  }

  /** Old walks stay, and a new edge adds no handlers. */
  lemma {:induction false} GrownWalk(nodes: Nodes, id: NodeId, seg: Seg, added: NodeId, n: NodeId, key: seq<Seg>)
    requires CanGrow(nodes, id, seg, added) && Closed(Grown(nodes, id, seg, added)) && n in nodes
    ensures Walk(nodes, n, key).Some? ==> Walk(Grown(nodes, id, seg, added), n, key) == Walk(nodes, n, key)
    ensures HandlersAt(Grown(nodes, id, seg, added), n, key) == HandlersAt(nodes, n, key)
    decreases |key|
  {
    if key != [] {
      var next := Edge(nodes[n], key[0]);
      if next.Some? {
        GrownWalk(nodes, id, seg, added, next.value, key[1..]);
      } else if n == id && key[0] == seg {
        var nodes' := Grown(nodes, id, seg, added);
        assert Walk(nodes', n, key) == Walk(nodes', added, key[1..]);
        if |key| == 1 {
          assert Walk(nodes', added, key[1..]) == Some(added);
        } else {
          assert Edge(nodes'[added], key[1..][0]) == None;
        }
      }
    }
  }

  lemma {:induction false} WalkSnoc(nodes: Nodes, n: NodeId, key: seq<Seg>, seg: Seg)
    requires Closed(nodes) && n in nodes
    ensures Walk(nodes, n, key + [seg]) ==
            match Walk(nodes, n, key)
            case None => None
            case Some(end) => Edge(nodes[end], seg)
    decreases |key|
  {
    if key == [] {
      assert (key + [seg])[1..] == [];
      if Edge(nodes[n], seg).Some? {
        assert Walk(nodes, Edge(nodes[n], seg).value, []) == Edge(nodes[n], seg);
      }
    } else {
      assert (key + [seg])[1..] == key[1..] + [seg];
      if Edge(nodes[n], key[0]).Some? {
        WalkSnoc(nodes, Edge(nodes[n], key[0]).value, key[1..], seg);
      }
    }
  }

  lemma GrownEdges(nodes: Nodes, keys: map<NodeId, seq<Seg>>, id: NodeId, seg: Seg, added: NodeId, m: NodeId, s: Seg)
    requires CanGrow(nodes, id, seg, added) && Keyed(nodes, keys)
    requires m in Grown(nodes, id, seg, added) && Edge(Grown(nodes, id, seg, added)[m], s).Some?
    ensures var keys' := keys[added := keys[id] + [seg]];
            var to := Edge(Grown(nodes, id, seg, added)[m], s).value;
            to in keys' && m in keys' && keys'[to] == keys'[m] + [s]
  {
    var nodes' := Grown(nodes, id, seg, added);
    if m == id && s == seg {
      assert Edge(nodes'[m], s) == Some(added);
    } else if m != added {
      assert Edge(nodes'[m], s) == Edge(nodes[m], s);
    }
  }

  lemma GrownKeyed(nodes: Nodes, keys: map<NodeId, seq<Seg>>, id: NodeId, seg: Seg, added: NodeId)
    requires CanGrow(nodes, id, seg, added) && Keyed(nodes, keys)
    ensures Keyed(Grown(nodes, id, seg, added), keys[added := keys[id] + [seg]])
  {
    var nodes', keys' := Grown(nodes, id, seg, added), keys[added := keys[id] + [seg]];
    GrownClosed(nodes, id, seg, added);
    forall m | m in keys' ensures Walk(nodes', 0, keys'[m]) == Some(m) {
      if m == added {
        GrownWalk(nodes, id, seg, added, 0, keys[id]);
        WalkSnoc(nodes', 0, keys[id], seg);
      } else {
        GrownWalk(nodes, id, seg, added, 0, keys[m]);
      }
    }
    forall m, s | m in nodes' && Edge(nodes'[m], s).Some? ensures keys'[Edge(nodes'[m], s).value] == keys'[m] + [s] {
      GrownEdges(nodes, keys, id, seg, added, m, s);
    }
  }

  lemma {:induction false} WalkKeys(nodes: Nodes, keys: map<NodeId, seq<Seg>>, key: seq<Seg>)
    requires Keyed(nodes, keys) && Walk(nodes, 0, key).Some?
    ensures keys[Walk(nodes, 0, key).value] == key
    decreases |key|
  {
    if key != [] {
      var before, seg := key[..|key| - 1], key[|key| - 1];
      assert key == before + [seg];
      WalkSnoc(nodes, 0, before, seg);
      WalkKeys(nodes, keys, before);
      assert keys[Edge(nodes[Walk(nodes, 0, before).value], seg).value] == before + [seg];
    }
  }

  function WithHandlers(nodes: Nodes, id: NodeId, h: Handlers): Nodes
    requires id in nodes
  {
    nodes[id := nodes[id].(handlers := Some(h))]
  }

  lemma {:induction false} HandlersWalk(nodes: Nodes, id: NodeId, h: Handlers, n: NodeId, key: seq<Seg>)
    requires Closed(nodes) && id in nodes && n in nodes && Closed(WithHandlers(nodes, id, h))
    ensures Walk(WithHandlers(nodes, id, h), n, key) == Walk(nodes, n, key)
    decreases |key|
  {
    if key != [] {
      assert Edge(WithHandlers(nodes, id, h)[n], key[0]) == Edge(nodes[n], key[0]);
      if Edge(nodes[n], key[0]).Some? {
        HandlersWalk(nodes, id, h, Edge(nodes[n], key[0]).value, key[1..]);
      }
    }
  }

  /** Setting the handlers of a node sets those of its key and no other. */
  lemma SetHandlers(nodes: Nodes, keys: map<NodeId, seq<Seg>>, id: NodeId, h: Handlers)
    requires Keyed(nodes, keys) && id in nodes
    ensures Keyed(WithHandlers(nodes, id, h), keys)
    ensures forall key :: HandlersAt(WithHandlers(nodes, id, h), 0, key) == if key == keys[id] then Some(h) else HandlersAt(nodes, 0, key)
  {
    var nodes' := WithHandlers(nodes, id, h);
    assert Closed(nodes');
    forall m, s | m in nodes' ensures Edge(nodes'[m], s) == Edge(nodes[m], s) {
    }
    forall m | m in keys ensures Walk(nodes', 0, keys[m]) == Some(m) {
      HandlersWalk(nodes, id, h, 0, keys[m]);
    }
    forall key ensures HandlersAt(nodes', 0, key) == if key == keys[id] then Some(h) else HandlersAt(nodes, 0, key) {
      HandlersWalk(nodes, id, h, 0, key);
      if Walk(nodes, 0, key).Some? {
        WalkKeys(nodes, keys, key);
      }
    }
  }

  lemma KeyNext(pattern: seq<string>, i: nat)
    requires i < |pattern|
    ensures Key(pattern)[..i + 1] == Key(pattern)[..i] + [SegOf(pattern[i])]
  {
  }
}

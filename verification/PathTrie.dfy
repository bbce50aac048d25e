/**
 * The route trie of http_router.go as data: nodes by id, lookups in four modes, and what the
 * lookups mean for the set of registered patterns.
 */
module PathTrie {
  import opened Options

  datatype Mode = ExplicitOnly | WildcardRoot | WildcardLeaf | WildcardNodes

  /** The methods of RestRequest. */
  datatype Method = GET | POST | PUT | DELETE | OPTIONS | HEAD | PATCH | TRACE | CONNECT

  datatype Route = Route(pattern: seq<string>, methods: set<Method>, handler: nat)

  /** methodHandlers: the pattern of the first route of a node and the routes of its methods. */
  datatype Handlers = Handlers(pattern: seq<string>, methods: map<Method, Route>)

  type NodeId = nat

  datatype Node = Node(children: map<string, NodeId>, wildcard: Option<NodeId>, handlers: Option<Handlers>)

  type Nodes = map<NodeId, Node>

  /** An edge of the trie: a segment or a wildcard. */
  datatype Seg = Lit(text: string) | Wild

  const EMPTY := Node(map[], None, None)

  ghost predicate Closed(nodes: Nodes) {
    forall id :: id in nodes ==>
      && (forall t :: t in nodes[id].children ==> nodes[id].children[t] in nodes)
      && (nodes[id].wildcard.Some? ==> nodes[id].wildcard.value in nodes)
  }

  function Edge(n: Node, seg: Seg): (r: Option<NodeId>) {
    match seg
    case Wild => n.wildcard
    case Lit(t) => if t in n.children then Some(n.children[t]) else None
  }

  /** The node a key leads to. */
  function Walk(nodes: Nodes, id: NodeId, key: seq<Seg>): (r: Option<NodeId>)
    requires Closed(nodes) && id in nodes
    ensures r.Some? ==> r.value in nodes
    decreases |key|
  {
    if key == [] then Some(id)
    else
      match Edge(nodes[id], key[0])
      case None => None
      case Some(next) => Walk(nodes, next, key[1..])
  }

  /** The handlers registered under a key. */
  function HandlersAt(nodes: Nodes, id: NodeId, key: seq<Seg>): (r: Option<Handlers>)
    requires Closed(nodes) && id in nodes
  {
    match Walk(nodes, id, key)
    case None => None
    case Some(n) => nodes[n].handlers
  }

  // ---------------------------------------------------------------- the lookup of the source

  datatype Choice = Choice(node: NodeId, usedWildcard: bool)

  /** The node that is tried first for a token, and whether that used up the wildcard. */
  function Pick(nodes: Nodes, n: Node, path: seq<string>, index: nat, mode: Mode): (r: Option<Choice>)
    requires index < |path|
    requires forall t :: t in n.children ==> n.children[t] in nodes
    ensures r.Some? ==> Edge(n, Lit(path[index])) == Some(r.value.node) || n.wildcard == Some(r.value.node)
  {
    var token, last := path[index], index + 1 == |path|;
    if token !in n.children then
      if mode == WildcardNodes || (mode == WildcardRoot && index == 1) || (mode == WildcardLeaf && last) then
        match n.wildcard
        case None => None
        case Some(w) => Some(Choice(w, true))
      else None
    else
      var child := n.children[token];
      if last && nodes[child].handlers == None && n.wildcard.Some? && mode != ExplicitOnly && mode != WildcardRoot then
        Some(Choice(n.wildcard.value, true))
      else if index == 1 && nodes[child].handlers == None && n.wildcard.Some? && mode == WildcardRoot then
        Some(Choice(n.wildcard.value, true))
      else Some(Choice(child, token == "*"))
  }

  /** trieNode.retrieve */
  function Retrieve(nodes: Nodes, id: NodeId, path: seq<string>, index: nat, mode: Mode): (r: Option<Handlers>)
    requires Closed(nodes) && id in nodes
    decreases |path| - index
  {
    if index >= |path| then None
    else
      var n := nodes[id];
      match Pick(nodes, n, path, index, mode)
      case None => None
      case Some(choice) =>
        if index + 1 == |path| then nodes[choice.node].handlers
        else
          var value := Retrieve(nodes, choice.node, path, index + 1, mode);
          if value == None && !choice.usedWildcard && mode != ExplicitOnly && n.wildcard.Some? then
            Retrieve(nodes, n.wildcard.value, path, index + 1, mode)
          else value
  }

  // ---------------------------------------------------------------- what it finds

  predicate Fits(key: seq<Seg>, path: seq<string>) {
    |key| == |path| && forall i :: 0 <= i < |key| ==> key[i] == Wild || key[i] == Lit(path[i])
  }

  /** p is q, or has a literal where the two first differ and q has the wildcard. */
  predicate Prefers(p: seq<Seg>, q: seq<Seg>) {
    |p| == |q| && (p == [] || (p[0] == q[0] && Prefers(p[1..], q[1..])) || (p[0].Lit? && q[0].Wild?))
  }

  /** key is the best registered key below the node that fits the path. */
  ghost predicate Best(nodes: Nodes, id: NodeId, path: seq<string>, key: seq<Seg>)
    requires Closed(nodes) && id in nodes
  {
    && Fits(key, path) && HandlersAt(nodes, id, key).Some?
    && forall q :: Fits(q, path) && HandlersAt(nodes, id, q).Some? ==> Prefers(key, q)
  }

  ghost predicate NoneFits(nodes: Nodes, id: NodeId, path: seq<string>)
    requires Closed(nodes) && id in nodes
  {
    forall q :: Fits(q, path) ==> HandlersAt(nodes, id, q) == None
  }

  /** No registered segment is the text "*". */
  ghost predicate NoStar(nodes: Nodes) {
    forall id :: id in nodes ==> "*" !in nodes[id].children
  }

  lemma FitsTail(key: seq<Seg>, path: seq<string>)
    requires key != [] && path != []
    ensures Fits(key, path) <==> (key[0] == Wild || key[0] == Lit(path[0])) && Fits(key[1..], path[1..])
  {
    if (key[0] == Wild || key[0] == Lit(path[0])) && Fits(key[1..], path[1..]) {
      forall i | 0 <= i < |key| ensures key[i] == Wild || key[i] == Lit(path[i]) {
        if i > 0 {
          assert key[1..][i - 1] == key[i] && path[1..][i - 1] == path[i];
        }
      }
    }
  }

  /** Nothing below an edge fits, or there is no edge. */
  ghost predicate NoneThrough(nodes: Nodes, id: NodeId, seg: Seg, rest: seq<string>)
    requires Closed(nodes) && id in nodes
  {
    Edge(nodes[id], seg).Some? ==> NoneFits(nodes, Edge(nodes[id], seg).value, rest)
  }

  lemma NoneBelow(nodes: Nodes, id: NodeId, path: seq<string>)
    requires Closed(nodes) && id in nodes && path != []
    requires NoneThrough(nodes, id, Lit(path[0]), path[1..]) && NoneThrough(nodes, id, Wild, path[1..])
    ensures NoneFits(nodes, id, path)
  {
    forall q | Fits(q, path) ensures HandlersAt(nodes, id, q) == None {
      FitsTail(q, path);
    }
  }

  lemma BestThroughLiteral(nodes: Nodes, id: NodeId, path: seq<string>, next: NodeId, key: seq<Seg>)
    requires Closed(nodes) && id in nodes && path != [] && Edge(nodes[id], Lit(path[0])) == Some(next)
    requires Best(nodes, next, path[1..], key)
    ensures Best(nodes, id, path, [Lit(path[0])] + key)
    ensures HandlersAt(nodes, id, [Lit(path[0])] + key) == HandlersAt(nodes, next, key)
  {
    var whole := [Lit(path[0])] + key;
    assert whole[1..] == key;
    FitsTail(whole, path);
    forall q | Fits(q, path) && HandlersAt(nodes, id, q).Some? ensures Prefers(whole, q) {
      FitsTail(q, path);
    }
  }

  lemma BestThroughWildcard(nodes: Nodes, id: NodeId, path: seq<string>, next: NodeId, key: seq<Seg>)
    requires Closed(nodes) && id in nodes && path != [] && nodes[id].wildcard == Some(next)
    requires Best(nodes, next, path[1..], key) && NoneThrough(nodes, id, Lit(path[0]), path[1..])
    ensures Best(nodes, id, path, [Wild] + key)
    ensures HandlersAt(nodes, id, [Wild] + key) == HandlersAt(nodes, next, key)
  {
    var whole := [Wild] + key;
    assert whole[1..] == key;
    FitsTail(whole, path);
    forall q | Fits(q, path) && HandlersAt(nodes, id, q).Some? ensures Prefers(whole, q) {
      FitsTail(q, path);
    }
  }

  /** The key of the result of a lookup, or that there is none. */
  ghost predicate Answers(nodes: Nodes, id: NodeId, path: seq<string>, r: Option<Handlers>, key: seq<Seg>)
    requires Closed(nodes) && id in nodes
  {
    match r
    case None => NoneFits(nodes, id, path)
    case Some(h) => Best(nodes, id, path, key) && HandlersAt(nodes, id, key) == Some(h)
  }

  lemma LeafAnswers(nodes: Nodes, id: NodeId)
    requires Closed(nodes) && id in nodes
    ensures Answers(nodes, id, [], nodes[id].handlers, [])
  {
  }

  /** Of the two edges for a token, the literal one decides unless nothing fits below it. */
  lemma Combine(nodes: Nodes, id: NodeId, path: seq<string>, lit: Option<Handlers>, litKey: seq<Seg>, wild: Option<Handlers>, wildKey: seq<Seg>)
    returns (key: seq<Seg>)
    requires Closed(nodes) && id in nodes && path != []
    requires match Edge(nodes[id], Lit(path[0]))
             case None => lit == None
             case Some(c) => Answers(nodes, c, path[1..], lit, litKey)
    requires lit == None ==>
               match nodes[id].wildcard
               case None => wild == None
               case Some(w) => Answers(nodes, w, path[1..], wild, wildKey)
    ensures Answers(nodes, id, path, if lit.Some? then lit else wild, key)
  {
    key := [];
    if lit.Some? {
      BestThroughLiteral(nodes, id, path, nodes[id].children[path[0]], litKey);
      key := [Lit(path[0])] + litKey;
    } else if wild.Some? {
      BestThroughWildcard(nodes, id, path, nodes[id].wildcard.value, wildKey);
      key := [Wild] + wildKey;
    } else {
      NoneBelow(nodes, id, path);
    }
  }

  /** With wildcards anywhere, the lookup finds the registered key that prefers literals leftmost. */
  lemma {:induction false} RetrieveBest(nodes: Nodes, id: NodeId, path: seq<string>, index: nat) returns (key: seq<Seg>)
    requires Closed(nodes) && NoStar(nodes) && id in nodes && index < |path|
    ensures Answers(nodes, id, path[index..], Retrieve(nodes, id, path, index, WildcardNodes), key)
    decreases |path| - index
  {
    var n, token := nodes[id], path[index];
    var rest := path[index..];
    assert rest[0] == token && rest[1..] == path[index + 1..];
    var lit, wild: Option<Handlers> := None, None;
    var litKey, wildKey: seq<Seg> := [], [];
    if index + 1 == |path| {
      assert rest[1..] == [];
      if token in n.children {
        lit := nodes[n.children[token]].handlers;
        LeafAnswers(nodes, n.children[token]);
      }
      if n.wildcard.Some? {
        wild := nodes[n.wildcard.value].handlers;
        LeafAnswers(nodes, n.wildcard.value);
      }
    } else {
      if token in n.children {
        lit := Retrieve(nodes, n.children[token], path, index + 1, WildcardNodes);
        litKey := RetrieveBest(nodes, n.children[token], path, index + 1);
      }
      if n.wildcard.Some? {
        wild := Retrieve(nodes, n.wildcard.value, path, index + 1, WildcardNodes);
        wildKey := RetrieveBest(nodes, n.wildcard.value, path, index + 1);
      }
    }
    key := Combine(nodes, id, rest, lit, litKey, wild, wildKey);
    assert Retrieve(nodes, id, path, index, WildcardNodes) == if lit.Some? then lit else wild;
  }

  /** In every mode the lookup finds a registered key that fits the path. */
  lemma {:induction false} RetrieveSound(nodes: Nodes, id: NodeId, path: seq<string>, index: nat, mode: Mode) returns (key: seq<Seg>)
    requires Closed(nodes) && id in nodes && Retrieve(nodes, id, path, index, mode).Some?
    ensures index < |path| && Fits(key, path[index..])
    ensures HandlersAt(nodes, id, key) == Retrieve(nodes, id, path, index, mode)
    decreases |path| - index
  {
    var n, rest := nodes[id], path[index..];
    assert rest[0] == path[index] && rest[1..] == path[index + 1..];
    var choice := Pick(nodes, n, path, index, mode).value;
    var next, below := choice.node, [];
    if index + 1 < |path| {
      if Retrieve(nodes, choice.node, path, index + 1, mode) == None {
        next := n.wildcard.value;
      }
      below := RetrieveSound(nodes, next, path, index + 1, mode);
    }
    var seg := if n.wildcard == Some(next) then Wild else Lit(path[index]);
    key := [seg] + below;
    assert key[1..] == below;
    FitsTail(key, rest);
    assert Edge(n, seg) == Some(next);
    assert Walk(nodes, id, key) == Walk(nodes, next, below);
    assert index + 1 == |path| ==> Walk(nodes, next, below) == Some(next);
  }

  /** Without wildcards, the lookup finds the path itself. */
  lemma {:induction false} RetrieveExplicit(nodes: Nodes, id: NodeId, path: seq<string>, index: nat)
    requires Closed(nodes) && id in nodes && index < |path|
    ensures Retrieve(nodes, id, path, index, ExplicitOnly) == HandlersAt(nodes, id, Literals(path[index..]))
    decreases |path| - index
  {
    var rest := path[index..];
    assert rest[0] == path[index] && rest[1..] == path[index + 1..];
    var key := Literals(rest);
    assert key[1..] == Literals(rest[1..]);
    if path[index] in nodes[id].children && index + 1 < |path| {
      RetrieveExplicit(nodes, nodes[id].children[path[index]], path, index + 1);
    }
    assert index + 1 == |path| ==> key[1..] == [];
    assert path[index] in nodes[id].children ==> Walk(nodes, id, key) == Walk(nodes, nodes[id].children[path[index]], key[1..]);
  }

  function Literals(path: seq<string>): (key: seq<Seg>)
    ensures |key| == |path| && forall i :: 0 <= i < |key| ==> key[i] == Lit(path[i])
  {
    seq(|path|, i requires 0 <= i < |path| => Lit(path[i]))
  }

  // ---------------------------------------------------------------- what each mode finds

  /** Only below the root, and with a wildcard beside it, a literal node without handlers is passed over. */
  predicate PassedOver(nodes: Nodes, n: Node, path: seq<string>, index: nat, mode: Mode)
    requires index < |path| && forall t :: t in n.children ==> n.children[t] in nodes
  {
    && mode == WildcardRoot && index == 1 && n.wildcard.Some?
    && path[index] in n.children && nodes[n.children[path[index]]].handlers == None
  }

  /**
   * Where a mode may use the wildcard: anywhere, below the root, at the last segment, or nowhere; and
   * beside a literal node, at the last segment too unless the mode is that of the root.
   */
  predicate WildcardAllowed(n: Node, path: seq<string>, index: nat, mode: Mode)
    requires index < |path|
  {
    match mode
    case ExplicitOnly => false
    case WildcardRoot => index == 1 || (path[index] in n.children && index + 1 < |path|)
    case WildcardLeaf => index + 1 == |path| || path[index] in n.children
    case WildcardNodes => true
  }

  ghost predicate StepAllowed(nodes: Nodes, n: Node, path: seq<string>, index: nat, mode: Mode, seg: Seg)
    requires index < |path| && forall t :: t in n.children ==> n.children[t] in nodes
  {
    match seg
    case Lit(t) => t == path[index] && !PassedOver(nodes, n, path, index, mode)
    case Wild => WildcardAllowed(n, path, index, mode)
  }

  /** A key of the trie below the node that the mode may take for the path. */
  ghost predicate Allowed(nodes: Nodes, id: NodeId, path: seq<string>, index: nat, mode: Mode, key: seq<Seg>)
    requires Closed(nodes) && id in nodes
    decreases |path| - index
  {
    if index >= |path| then key == []
    else
      && key != [] && StepAllowed(nodes, nodes[id], path, index, mode, key[0])
      && match Edge(nodes[id], key[0])
         case None => false
         case Some(next) => Allowed(nodes, next, path, index + 1, mode, key[1..])
  }

  /** The handlers of the allowed key that prefers literals leftmost, or that no allowed key has any. */
  ghost predicate Finds(nodes: Nodes, id: NodeId, path: seq<string>, index: nat, mode: Mode, r: Option<Handlers>, key: seq<Seg>)
    requires Closed(nodes) && id in nodes
  {
    match r
    case None => forall q :: Allowed(nodes, id, path, index, mode, q) ==> HandlersAt(nodes, id, q) == None
    case Some(h) =>
      && Allowed(nodes, id, path, index, mode, key) && HandlersAt(nodes, id, key) == Some(h)
      && forall q :: Allowed(nodes, id, path, index, mode, q) && HandlersAt(nodes, id, q).Some? ==> Prefers(key, q)
  }

  /** What is found behind one edge: nothing when the edge is missing or not allowed. */
  ghost predicate FindsBehind(nodes: Nodes, id: NodeId, path: seq<string>, index: nat, mode: Mode, seg: Seg, r: Option<Handlers>, key: seq<Seg>)
    requires Closed(nodes) && id in nodes && index < |path|
  {
    if StepAllowed(nodes, nodes[id], path, index, mode, seg) && Edge(nodes[id], seg).Some?
    then Finds(nodes, Edge(nodes[id], seg).value, path, index + 1, mode, r, key)
    else r == None
  }

  lemma LeafFinds(nodes: Nodes, id: NodeId, path: seq<string>, mode: Mode)
    requires Closed(nodes) && id in nodes
    ensures Finds(nodes, id, path, |path|, mode, nodes[id].handlers, [])
  {
  }

  lemma NothingBehind(nodes: Nodes, id: NodeId, path: seq<string>, index: nat, mode: Mode, seg: Seg, r: Option<Handlers>, key: seq<Seg>, q: seq<Seg>)
    requires Closed(nodes) && id in nodes && index < |path| && FindsBehind(nodes, id, path, index, mode, seg, r, key)
    requires Allowed(nodes, id, path, index, mode, q) && q[0] == seg
    ensures r == None ==> HandlersAt(nodes, id, q) == None
    ensures r.Some? && HandlersAt(nodes, id, q).Some? ==> Prefers([seg] + key, q)
  {
    assert ([seg] + key)[1..] == key;
  }

  lemma FoundBehind(nodes: Nodes, id: NodeId, path: seq<string>, index: nat, mode: Mode, seg: Seg, r: Option<Handlers>, key: seq<Seg>)
    requires Closed(nodes) && id in nodes && index < |path| && FindsBehind(nodes, id, path, index, mode, seg, r, key) && r.Some?
    ensures Allowed(nodes, id, path, index, mode, [seg] + key) && HandlersAt(nodes, id, [seg] + key) == r
  {
    assert ([seg] + key)[1..] == key;
  }

  lemma FindsEither(nodes: Nodes, id: NodeId, path: seq<string>, index: nat, mode: Mode,
                    lit: Option<Handlers>, litKey: seq<Seg>, wild: Option<Handlers>, wildKey: seq<Seg>)
    returns (key: seq<Seg>)
    requires Closed(nodes) && id in nodes && index < |path|
    requires FindsBehind(nodes, id, path, index, mode, Lit(path[index]), lit, litKey)
    requires FindsBehind(nodes, id, path, index, mode, Wild, wild, wildKey)
    ensures Finds(nodes, id, path, index, mode, if lit.Some? then lit else wild, key)
  {
    key := [];
    if lit.Some? {
      key := [Lit(path[index])] + litKey;
      FoundBehind(nodes, id, path, index, mode, Lit(path[index]), lit, litKey);
    } else if wild.Some? {
      key := [Wild] + wildKey;
      FoundBehind(nodes, id, path, index, mode, Wild, wild, wildKey);
    }
    forall q | Allowed(nodes, id, path, index, mode, q)
      ensures lit == None && wild == None ==> HandlersAt(nodes, id, q) == None
      ensures (lit.Some? || wild.Some?) && HandlersAt(nodes, id, q).Some? ==> Prefers(key, q)
    {
      AllowedHead(nodes, id, path, index, mode, q);
      if q[0] == Wild {
        NothingBehind(nodes, id, path, index, mode, Wild, wild, wildKey, q);
        if lit.Some? && HandlersAt(nodes, id, q).Some? {
          AllowedLength(nodes, id, path, index, mode, key);
          AllowedLength(nodes, id, path, index, mode, q);
        }
      } else {
        NothingBehind(nodes, id, path, index, mode, Lit(path[index]), lit, litKey, q);
      }
    }
  }

  lemma AllowedHead(nodes: Nodes, id: NodeId, path: seq<string>, index: nat, mode: Mode, q: seq<Seg>)
    requires Closed(nodes) && id in nodes && index < |path| && Allowed(nodes, id, path, index, mode, q)
    ensures q != [] && (q[0] == Wild || q[0] == Lit(path[index]))
  {
  }

  lemma {:induction false} AllowedLength(nodes: Nodes, id: NodeId, path: seq<string>, index: nat, mode: Mode, q: seq<Seg>)
    requires Closed(nodes) && id in nodes && index <= |path| && Allowed(nodes, id, path, index, mode, q)
    ensures |q| == |path| - index
    decreases |path| - index
  {
    if index < |path| {
      AllowedLength(nodes, Edge(nodes[id], q[0]).value, path, index + 1, mode, q[1..]);
    }
  }

  /** In every mode, the lookup finds the handlers of the allowed key that prefers literals leftmost. */
  lemma {:induction false} RetrieveExact(nodes: Nodes, id: NodeId, path: seq<string>, index: nat, mode: Mode) returns (key: seq<Seg>)
    requires Closed(nodes) && NoStar(nodes) && id in nodes && index < |path|
    ensures Finds(nodes, id, path, index, mode, Retrieve(nodes, id, path, index, mode), key)
    decreases |path| - index
  {
    hide Finds;
    var n, token := nodes[id], path[index];
    var lit, wild: Option<Handlers> := None, None;
    var litKey, wildKey: seq<Seg> := [], [];
    if token in n.children && !PassedOver(nodes, n, path, index, mode) {
      if index + 1 == |path| {
        lit := nodes[n.children[token]].handlers;
        LeafFinds(nodes, n.children[token], path, mode);
      } else {
        lit := Retrieve(nodes, n.children[token], path, index + 1, mode);
        litKey := RetrieveExact(nodes, n.children[token], path, index + 1, mode);
      }
    }
    if n.wildcard.Some? && WildcardAllowed(n, path, index, mode) {
      if index + 1 == |path| {
        wild := nodes[n.wildcard.value].handlers;
        LeafFinds(nodes, n.wildcard.value, path, mode);
      } else {
        wild := Retrieve(nodes, n.wildcard.value, path, index + 1, mode);
        wildKey := RetrieveExact(nodes, n.wildcard.value, path, index + 1, mode);
      }
    }
    key := FindsEither(nodes, id, path, index, mode, lit, litKey, wild, wildKey);
    RetrieveEither(nodes, id, path, index, mode);
  }

  /** The lookup, as the literal edge first and then the wildcard, each where it is allowed. */
  lemma RetrieveEither(nodes: Nodes, id: NodeId, path: seq<string>, index: nat, mode: Mode)
    requires Closed(nodes) && NoStar(nodes) && id in nodes && index < |path|
    ensures var lit, wild := Behind(nodes, id, path, index, mode, Lit(path[index])), Behind(nodes, id, path, index, mode, Wild);
            Retrieve(nodes, id, path, index, mode) == if lit.Some? then lit else wild
  {
  }

  ghost function Behind(nodes: Nodes, id: NodeId, path: seq<string>, index: nat, mode: Mode, seg: Seg): Option<Handlers>
    requires Closed(nodes) && id in nodes && index < |path|
  {
    if !StepAllowed(nodes, nodes[id], path, index, mode, seg) || Edge(nodes[id], seg) == None then None
    else if index + 1 == |path| then nodes[Edge(nodes[id], seg).value].handlers
    else Retrieve(nodes, Edge(nodes[id], seg).value, path, index + 1, mode)
  }

  // ---------------------------------------------------------------- preference

  ghost predicate LiteralFirst(p: seq<Seg>, q: seq<Seg>, i: nat) {
    i < |p| == |q| && p[..i] == q[..i] && p[i].Lit? && q[i].Wild?
  }

  /** A key is preferred to itself and to keys with a wildcard where they first differ and it has a literal. */
  lemma {:induction false} PrefersExactly(p: seq<Seg>, q: seq<Seg>)
    ensures Prefers(p, q) <==> p == q || exists i: nat :: LiteralFirst(p, q, i)
  {
    if |p| == |q| && p != [] {
      if p[0] == q[0] {
        PrefersExactly(p[1..], q[1..]);
        assert p == [p[0]] + p[1..] && q == [q[0]] + q[1..];
        if i: nat :| LiteralFirst(p, q, i) {
          assert p[1..][..i - 1] == p[..i][1..] && q[1..][..i - 1] == q[..i][1..];
          assert LiteralFirst(p[1..], q[1..], i - 1);
        }
        if i: nat :| LiteralFirst(p[1..], q[1..], i) {
          assert p[..i + 1] == [p[0]] + p[1..][..i] && q[..i + 1] == [q[0]] + q[1..][..i];
          assert LiteralFirst(p, q, i + 1);
        }
      } else {
        assert p[0].Lit? && q[0].Wild? ==> LiteralFirst(p, q, 0);
        HeadsDiffer(p, q);
      }
    }
  }

  lemma HeadsDiffer(p: seq<Seg>, q: seq<Seg>)
    requires p != [] && q != [] && p[0] != q[0]
    ensures forall i: nat :: LiteralFirst(p, q, i) ==> i == 0
  {
    forall i: nat | LiteralFirst(p, q, i) ensures i == 0 {
      if i > 0 {
        SameStart(p, q, i);
      }
    }
  }

  lemma SameStart(p: seq<Seg>, q: seq<Seg>, i: nat)
    requires 0 < i <= |p| && i <= |q| && p[..i] == q[..i]
    ensures p[0] == q[0]
  {
    assert p[..i][0] == p[0] && q[..i][0] == q[0];
  }
}

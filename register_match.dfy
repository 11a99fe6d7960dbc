/**
 * `Register` followed by `Match`: what a registration makes findable. A literal pattern (one in
 * which no `:` or `*` character occurs) is found alone by every request that normalises to it; any
 * other pattern is found by every request its segments accept, unless a static route takes that
 * request first.
 */
module RegisterMatch {
  import opened Common
  import opened Paths
  import opened Trie
  import opened MatchFacts
  import opened RegisterFacts
  import opened RouteParams

  /** Node `y` carries handle `h` and is reached from the root by the keys of the pattern `arr`. */
  predicate EndsAt(nodes: seq<Node>, arr: seq<string>, y: nat, h: Handle)
  {
    && Searchable(nodes) && |arr| >= 2
    && Follow(nodes, 0, KeysOf(arr)[1..]) == Some(y)
    && nodes[y].handle == Some(h)
    && nodes[y].step == |arr| - 1 && nodes[y].name == NodeName(arr[|arr| - 1])
  }

  /**
   * The split request `req` is as long as the split pattern `arr` (or longer, under a final `*`) and
   * each key of the pattern accepts the request's segment at its depth.
   */
  predicate Fits(arr: seq<string>, req: seq<string>)
  {
    && |arr| >= 1
    && (|req| == |arr| || (|req| > |arr| && NodeName(arr[|arr| - 1]) == PathMatchVague))
    && forall j :: 1 <= j < |arr| && j < |req| ==> KeyAccepts(NodeName(arr[j]), req[j])
  }

  /**
   * `Register` with an empty route fails and changes nothing; a literal pattern goes to the static
   * index only, where an existing entry makes it fail and changes nothing, and otherwise a new entry
   * carries the whole pattern and the handle while every other entry stays.
   */
  lemma RegisterStatic(t: Table, route: string, h: Handle)
    requires Valid(t)
    ensures route == "" ==> Register(t, route, h) == (t, Some(EmptyRoute))
    ensures route != "" && IsStatic(PathName([route])) ==>
      var key, r := PathName([route]), Register(t, route, h);
      && r.0.nodes == t.nodes
      && (key in t.statics ==> r == (t, Some(RouteExists(key))))
      && (key !in t.statics ==>
            && r.1 == None && r.0.statics.Keys == t.statics.Keys + {key}
            && (forall k :: k in t.statics ==> r.0.statics[k] == t.statics[k])
            && r.0.statics[key].route == Split(key) && r.0.statics[key].handle == Some(h))
  {
  }

  /** After a literal pattern is registered, every request normalising to it matches exactly its node. */
  lemma StaticRoundTrip(t: Table, route: string, h: Handle, paths: seq<string>)
    requires Valid(t) && route != "" && IsStatic(PathName([route])) && PathName([route]) !in t.statics
    requires PathName(paths) == PathName([route])
    ensures var r := Register(t, route, h);
      && r.1 == None
      && Match(r.0, paths) == [NewStatic(Split(PathName([route])), h)]
  {
  }

  /**
   * As written, a pattern that registers without error and has no `*` at depth 1 before its end has
   * no `*` key before its last one (depth 1 is never checked, so the second condition is needed).
   */
  lemma NoInnerWildcard(arr: seq<string>)
    requires |arr| >= 2 && !WildcardInside(arr, 2)
    requires NodeName(arr[1]) != PathMatchVague || |arr| == 2
    ensures var keys := KeysOf(arr)[1..];
      forall j :: 0 <= j < |keys| - 1 ==> keys[j] != PathMatchVague
  {
    var keys := KeysOf(arr)[1..];
    forall j | 0 <= j < |keys| - 1 ensures keys[j] != PathMatchVague {
      assert keys[j] == NodeName(arr[1 + j]);
    }
  }

  /** With the corrected walk no `*` may stand before the end at any depth, depth 1 included. */
  lemma NoInnerWildcardReusing(arr: seq<string>)
    requires |arr| >= 2 && !WildcardInside(arr, 1)
    ensures var keys := KeysOf(arr)[1..];
      forall j :: 0 <= j < |keys| - 1 ==> keys[j] != PathMatchVague
  {
    var keys := KeysOf(arr)[1..];
    forall j | 0 <= j < |keys| - 1 ensures keys[j] != PathMatchVague {
      assert keys[j] == NodeName(arr[1 + j]);
    }
  }

  /** As written, a walk that ends without error leads from the root, key by key, to a node carrying the handle. */
  lemma DynamicNode(nodes: seq<Node>, arr: seq<string>, h: Handle) returns (y: nat)
    requires ValidNodes(nodes) && |arr| >= 2 && arr[0] == ""
    requires RegisterDynamic(nodes, arr, h).1 == None
    ensures var r := RegisterDynamic(nodes, arr, h).0;
      && !WildcardInside(arr, 2)
      && EndsAt(r, arr, y, h)
  {
    RegisterDynamicOutcome(nodes, arr, h);
    RegisterDynamicReaches(nodes, arr, h);
    var r := RegisterDynamic(nodes, arr, h).0;
    var keys := KeysOf(arr)[1..];
    y := Follow(r, 0, keys).value;
    assert keys[|keys| - 1] == NodeName(arr[|arr| - 1]);
  }

  /** The corrected walk, when it ends without error, leads from the root to a node carrying the handle. */
  lemma DynamicNodeReusing(nodes: seq<Node>, arr: seq<string>, h: Handle) returns (y: nat)
    requires ValidNodes(nodes) && |arr| >= 2 && arr[0] == ""
    requires RegisterDynamicReusing(nodes, arr, h).1 == None
    ensures var r := RegisterDynamicReusing(nodes, arr, h).0;
      && !WildcardInside(arr, 1)
      && EndsAt(r, arr, y, h)
  {
    ReusingOutcome(nodes, arr, h);
    ReusingReaches(nodes, arr, h);
    var r := RegisterDynamicReusing(nodes, arr, h).0;
    var keys := KeysOf(arr)[1..];
    y := Follow(r, 0, keys).value;
    assert keys[|keys| - 1] == NodeName(arr[|arr| - 1]);
  }

  /** As written, a pattern containing `:` or `*` registered without error leads from the root to a node carrying the handle. */
  lemma RegisteredNode(t: Table, route: string, h: Handle) returns (y: nat)
    requires Valid(t) && route != "" && !IsStatic(PathName([route]))
    requires Register(t, route, h).1 == None
    ensures var arr, r := Split(PathName([route])), Register(t, route, h);
      && |arr| >= 2 && !WildcardInside(arr, 2)
      && r.0.statics == t.statics && Valid(r.0)
      && EndsAt(r.0.nodes, arr, y, h)
  {
    var arr := Split(PathName([route]));
    SplitPathName([route]);
    assert Register(t, route, h).0.nodes == RegisterDynamic(t.nodes, arr, h).0;
    y := DynamicNode(t.nodes, arr, h);
  }

  /** With the corrected walk, a pattern containing `:` or `*` registered without error leads to a node carrying the handle. */
  lemma RegisteredNodeReusing(t: Table, route: string, h: Handle) returns (y: nat)
    requires Valid(t) && route != "" && !IsStatic(PathName([route]))
    requires RegisterReusing(t, route, h).1 == None
    ensures var arr, r := Split(PathName([route])), RegisterReusing(t, route, h);
      && |arr| >= 2 && !WildcardInside(arr, 1)
      && r.0.statics == t.statics && Valid(r.0)
      && EndsAt(r.0.nodes, arr, y, h)
  {
    var arr := Split(PathName([route]));
    SplitPathName([route]);
    assert RegisterReusing(t, route, h).0.nodes == RegisterDynamicReusing(t.nodes, arr, h).0;
    y := DynamicNodeReusing(t.nodes, arr, h);
  }

  /**
   * A node reached from the root along the keys of pattern `arr`, with no `*` key before the last,
   * is returned by `Match` for every request those keys accept segment by segment (more segments
   * under a final `*`), unless a static route takes the request.
   */
  lemma FoundAlong(r: Table, arr: seq<string>, paths: seq<string>, y: nat, h: Handle)
    requires Valid(r) && PathName(paths) !in r.statics && EndsAt(r.nodes, arr, y, h)
    requires var keys := KeysOf(arr)[1..]; forall j :: 0 <= j < |keys| - 1 ==> keys[j] != PathMatchVague
    requires Fits(arr, Split(PathName(paths)))
    ensures exists n :: n in Match(r, paths) && n.handle == Some(h)
  {
    var req := Split(PathName(paths));
    var keys := KeysOf(arr)[1..];
    assert Terminal(r.nodes[y], req);
    forall j | 0 <= j < |keys| ensures KeyAccepts(keys[j], req[1 + j]) {
      assert keys[j] == NodeName(arr[1 + j]);
    }
    MatchComplete(r, paths, keys, y);
  }

  /**
   * As written: after a pattern containing `:` or `*` is registered without error, every request
   * its keys accept finds a node carrying the handle, unless a static route takes the request. A `*`
   * at depth 1 followed by more segments is excluded: depth 1 is never checked, and the search stops
   * at a `*` node.
   */
  lemma DynamicRoundTrip(t: Table, route: string, h: Handle, paths: seq<string>)
    requires Valid(t) && route != "" && !IsStatic(PathName([route]))
    requires var arr := Split(PathName([route]));
      |arr| >= 2 && (NodeName(arr[1]) != PathMatchVague || |arr| == 2)
    requires Register(t, route, h).1 == None
    requires PathName(paths) !in t.statics
    requires Fits(Split(PathName([route])), Split(PathName(paths)))
    ensures exists n :: n in Match(Register(t, route, h).0, paths) && n.handle == Some(h)
  {
    var arr := Split(PathName([route]));
    var y := RegisteredNode(t, route, h);
    var r := Register(t, route, h).0;
    NoInnerWildcard(arr);
    FoundAlong(r, arr, paths, y, h);
  }

  /** The same round trip for the corrected walk, which needs no condition on depth 1. */
  lemma ReusingRoundTrip(t: Table, route: string, h: Handle, paths: seq<string>)
    requires Valid(t) && route != "" && !IsStatic(PathName([route]))
    requires RegisterReusing(t, route, h).1 == None
    requires PathName(paths) !in t.statics
    requires Fits(Split(PathName([route])), Split(PathName(paths)))
    ensures exists n :: n in Match(RegisterReusing(t, route, h).0, paths) && n.handle == Some(h)
  {
    var arr := Split(PathName([route]));
    var y := RegisteredNodeReusing(t, route, h);
    NoInnerWildcardReusing(arr);
    FoundAlong(RegisterReusing(t, route, h).0, arr, paths, y, h);
  }

  /**
   * As written, registering keeps every static entry, and every key path that does not start with the
   * new pattern's first key still leads to the same node, which keeps its handle. Paths under that
   * first key are not kept (`FreshChainDropsSibling`).
   */
  lemma RegisterKeepsOthers(t: Table, route: string, h: Handle, keys: seq<string>)
    requires Valid(t) && Follow(t.nodes, 0, keys).Some?
    requires route != "" && !IsStatic(PathName([route])) ==>
      keys != [] && keys[0] != NodeName(Split(PathName([route]))[1])
    ensures var r, y := Register(t, route, h).0, Follow(t.nodes, 0, keys).value;
      && Follow(r.nodes, 0, keys) == Some(y)
      && (t.nodes[y].handle.Some? ==> r.nodes[y].handle == t.nodes[y].handle)
      && (forall k :: k in t.statics ==> k in r.statics && r.statics[k] == t.statics[k])
  {
    if route != "" && !IsStatic(PathName([route])) {
      var arr := Split(PathName([route]));
      SplitPathName([route]);
      assert Register(t, route, h).0 == t.(nodes := RegisterDynamic(t.nodes, arr, h).0);
      RegisterDynamicKeepsOthers(t.nodes, arr, h, keys);
    } else {
      RegisterStatic(t, route, h);
    }
  }

  /**
   * With the corrected walk, registering loses nothing: every key path of the trie still leads to the
   * same node, which keeps its handle, and the static index only gains entries.
   */
  lemma RegisterReusingKeeps(t: Table, route: string, h: Handle, keys: seq<string>)
    requires Valid(t) && Follow(t.nodes, 0, keys).Some?
    ensures var r, y := RegisterReusing(t, route, h).0, Follow(t.nodes, 0, keys).value;
      && Follow(r.nodes, 0, keys) == Some(y)
      && (t.nodes[y].handle.Some? ==> r.nodes[y].handle == t.nodes[y].handle)
      && (forall k :: k in t.statics ==> k in r.statics && r.statics[k] == t.statics[k])
  {
    if route != "" && !IsStatic(PathName([route])) {
      var arr := Split(PathName([route]));
      SplitPathName([route]);
      assert RegisterReusing(t, route, h).0 == t.(nodes := RegisterDynamicReusing(t.nodes, arr, h).0);
      ReusingKeeps(t.nodes, arr, h, keys);
    } else {
      RegisterStatic(t, route, h);
    }
  }

  /**
   * A pattern is literal only when it holds neither `:` nor `*` anywhere, so "/a:b" goes to the trie
   * although its one segment starts with neither and is keyed as the literal "a:b"; a request for
   * "/a:b" then finds it there rather than in the static index.
   */
  lemma LiteralColonToTrie(h: Handle)
    ensures var key := PathName(["a:b"]);
      && key == "/a:b" && Split(key) == ["", "a:b"]
      && NodeName("a:b") == "a:b" && !IsStatic(key)
    ensures var r := Register(Empty(), "a:b", h);
      && r.1 == None && r.0.statics == map[]
      && exists n :: n in Match(r.0, ["a:b"]) && n.handle == Some(h)
  {
    var name := "a:b";
    SplitSegment(name);
    assert [name][1..] == [];
    assert Elements([name]) == [name];
    assert IsSegment(name);
    CleanFromClean([], [name]);
    assert JoinedSegments([name]) == [name];
    assert Lower(name) == name;
    assert LowerAll([name]) == [name];
    var key := PathName([name]);
    SplitCanonical(key);
    assert Split(key) == ["", name];
    JoinSplit(key);
    assert key == "/a:b";
    assert key[2] == ':';
    var arr := Split(key);
    RegisterDynamicOutcome(Empty().nodes, arr, h);
    assert !WildcardInside(arr, 2);
    assert Register(Empty(), name, h).0.statics == map[];
    assert Fits(arr, arr);
    DynamicRoundTrip(Empty(), name, h, [name]);
  }

  // The corrected walk reuses a node together with the route of the pattern that created it

  const Longer: seq<string> := ["", "a", ":id", "x"]
  const Shorter: seq<string> := ["", "a", ":name"]

  /**
   * The tables the corrected walk builds for "/a/:id/x" from the empty trie, one `addChild` at a
   * time: each links a new node for the next segment below the previous one.
   */
  const LongerA: seq<Node> := [Root][0 := Root.(child := Root.child["a" := 1])] + [NewNode("a", Longer, 1)]
  const LongerB: seq<Node> := LongerA[1 := LongerA[1].(child := LongerA[1].child[":" := 2])] + [NewNode(":", Longer, 2)]
  const LongerC: seq<Node> := LongerB[2 := LongerB[2].(child := LongerB[2].child["x" := 3])] + [NewNode("x", Longer, 3)]

  /** The table once the handle is set on the last node. */
  function LongerTable(h: Handle): seq<Node>
  {
    LongerC[3 := LongerC[3].(handle := Some(h))]
  }

  lemma LongerFirst(h: Handle)
    ensures ValidNodes([Root]) && WalkReady(LongerA, Longer, 2, 1)
    ensures RegisterDynamicReusing([Root], Longer, h) == Walk(LongerA, Longer, 2, 1, h)
  {
    assert Empty().nodes == [Root];
    assert KeysOf(Longer[..1]) == [""] == KeysOf(Root.route);
    assert NodeName("a") == "a";
    WalkUnfold([Root], Longer, 1, 0, h);
    assert AddChild([Root], 0, Longer, 1) == ChildResult(LongerA, Some(1), None);
  }

  lemma LongerSecond(h: Handle)
    requires WalkReady(LongerA, Longer, 2, 1)
    ensures WalkReady(LongerB, Longer, 3, 2)
    ensures Walk(LongerA, Longer, 2, 1, h) == Walk(LongerB, Longer, 3, 2, h)
  {
    assert NodeName(":id") == ":";
    WalkUnfold(LongerA, Longer, 2, 1, h);
    assert AddChild(LongerA, 1, Longer, 2) == ChildResult(LongerB, Some(2), None);
  }

  lemma LongerThird(h: Handle)
    requires WalkReady(LongerB, Longer, 3, 2)
    ensures WalkReady(LongerC, Longer, 4, 3)
    ensures Walk(LongerB, Longer, 3, 2, h) == (LongerTable(h), None)
  {
    assert NodeName("x") == "x";
    WalkUnfold(LongerB, Longer, 3, 2, h);
    assert AddChild(LongerB, 2, Longer, 3) == ChildResult(LongerC, Some(3), None);
    WalkEnd(LongerC, Longer, 3, h);
  }

  /** Registering "/a/:id/x" with the corrected walk on the empty trie builds `LongerTable`. */
  lemma LongerRegistered(h: Handle)
    ensures ValidNodes([Root])
    ensures RegisterDynamicReusing([Root], Longer, h) == (LongerTable(h), None)
  {
    LongerFirst(h);
    LongerSecond(h);
    LongerThird(h);
  }

  /**
   * Registering "/a/:name" next walks down "a" and ":" to the existing node, which has no handle yet,
   * and gives it the handle; the node keeps the route of "/a/:id/x" up to its depth.
   */
  lemma ShorterReuses(h1: Handle, h2: Handle)
    ensures ValidNodes(LongerTable(h1))
    ensures RegisterDynamicReusing(LongerTable(h1), Shorter, h2)
      == (LongerTable(h1)[2 := LongerTable(h1)[2].(handle := Some(h2))], None)
  {
    LongerRegistered(h1);
    var one := LongerTable(h1);
    ShorterFirst(h1, h2);
    ShorterSecond(h1, h2);
    WalkEnd(one, Shorter, 2, h2);
  }

  /** "a" is a child of the root without a handle at depth 1, so the walk goes on from node 1. */
  lemma ShorterFirst(h1: Handle, h2: Handle)
    requires ValidNodes(LongerTable(h1))
    ensures WalkReady(LongerTable(h1), Shorter, 1, 0) && WalkReady(LongerTable(h1), Shorter, 2, 1)
    ensures Walk(LongerTable(h1), Shorter, 1, 0, h2) == Walk(LongerTable(h1), Shorter, 2, 1, h2)
  {
    var one := LongerTable(h1);
    assert KeysOf(Shorter[..1]) == [""] == KeysOf(one[0].route);
    assert NodeName("a") == "a";
    WalkUnfold(one, Shorter, 1, 0, h2);
    assert AddChild(one, 0, Shorter, 1) == ChildResult(one, Some(1), None);
  }

  /** ":" is a child of node 1 without a handle, so the walk ends at node 2. */
  lemma ShorterSecond(h1: Handle, h2: Handle)
    requires WalkReady(LongerTable(h1), Shorter, 2, 1)
    ensures WalkReady(LongerTable(h1), Shorter, 3, 2)
    ensures Walk(LongerTable(h1), Shorter, 2, 1, h2) == Walk(LongerTable(h1), Shorter, 3, 2, h2)
  {
    var one := LongerTable(h1);
    assert NodeName(":name") == ":";
    WalkUnfold(one, Shorter, 2, 1, h2);
    assert AddChild(one, 1, Shorter, 2) == ChildResult(one, Some(2), None);
  }

  /** The request "/a/5" splits into the root's empty element, "a" and "5". */
  lemma RequestSplit()
    ensures Split(PathName(["a", "5"])) == ["", "a", "5"]
  {
    var req := ["a", "5"];
    SplitSegment("a");
    SplitSegment("5");
    assert req[1..] == ["5"] && req[1..][1..] == [];
    assert Elements(req) == req;
    assert IsSegment("a") && IsSegment("5");
    CleanFromClean([], req);
    assert JoinedSegments(req) == req;
    assert Lower("a") == "a" && Lower("5") == "5";
    assert LowerAll(req) == req;
    SplitCanonical(PathName(req));
  }

  /** After both registrations, "a" then ":" leads to node 2, which has the second handle and the first route. */
  lemma ReusedNode(two: seq<Node>)
    requires two == LongerTable(Handle(1))[2 := LongerTable(Handle(1))[2].(handle := Some(Handle(2)))]
    requires ValidNodes(two)
    ensures Follow(two, 0, ["a", ":"]) == Some(2)
    ensures two[2].handle == Some(Handle(2)) && two[2].route == ["", "a", ":id"]
  {
    assert ["a", ":"][1..] == [":"] && [":"][1..] == [];
    assert Longer[..3] == ["", "a", ":id"];
    FollowStep(two, 0, ["a", ":"]);
    FollowStep(two, 1, [":"]);
  }

  /**
   * With the corrected walk, registering "/a/:id/x" and then "/a/:name" makes "/a/5" find the handle
   * of "/a/:name" on a node whose route is still "/a/:id", so `Params` binds `id`, not `name`.
   */
  lemma ReusedNodeKeepsFirstRoute()
    ensures ValidNodes([Root])
    ensures var one := RegisterDynamicReusing([Root], Longer, Handle(1));
      && one.1 == None
      && var two := RegisterDynamicReusing(one.0, Shorter, Handle(2));
      && two.1 == None
      && Follow(two.0, 0, ["a", ":"]) == Some(2)
      && two.0[2].handle == Some(Handle(2)) && two.0[2].route == ["", "a", ":id"]
      && two.0[2] in Match(Table(two.0, map[]), ["a", "5"])
      && Params(two.0[2], ["a", "5"]) == map["id" := "5"]
  {
    LongerRegistered(Handle(1));
    ShorterReuses(Handle(1), Handle(2));
    var two := RegisterDynamicReusing(LongerTable(Handle(1)), Shorter, Handle(2)).0;
    ReusedNode(two);
    ReusedMatch(two);
  }

  /** A table where "a" then ":" leads to a handled node with route "/a/:id": "/a/5" finds it and binds `id`. */
  lemma ReusedMatch(two: seq<Node>)
    requires ValidNodes(two) && Follow(two, 0, ["a", ":"]) == Some(2)
    requires two[2].handle.Some? && two[2].route == ["", "a", ":id"]
    ensures two[2] in Match(Table(two, map[]), ["a", "5"])
    ensures Params(two[2], ["a", "5"]) == map["id" := "5"]
  {
    RequestSplit();
    ParamsOfFive(two[2]);
    MatchComplete(Table(two, map[]), ["a", "5"], ["a", ":"], 2);
  }

  /** A node whose route is "/a/:id" binds `id` to "5" for the request "/a/5". */
  lemma ParamsOfFive(n: Node)
    requires n.route == ["", "a", ":id"]
    ensures Params(n, ["a", "5"]) == map["id" := "5"]
  {
    RequestSplit();
    var arr := Split(PathName(["a", "5"]));
    assert ParamKey(n.route[0]) == None && ParamKey(n.route[1]) == None;
    ParamsLiteral(n.route, arr, 2);
    assert ":id"[1..] == "id" && HasPrefix(":id", PathMatchParam);
    assert ParamKey(n.route[2]) == Some("id") && ParamValue(n.route[2], arr, 2) == "5";
    assert Params(n, ["a", "5"]) == ParamsUpTo(n.route, arr, 3);
  }
}

/**
 * What `Router.Match` promises about the candidates it returns: every one carries a handle and
 * has a pattern that accepts the path (soundness), and every handled pattern of the trie that
 * accepts the path, and that the search is able to reach, is among them (completeness).
 */
module MatchFacts {
  import opened Common
  import opened Paths
  import opened Trie

  /** A pattern key accepts a path segment: `:` and `*` accept any segment, a literal only itself. */
  predicate KeyAccepts(key: string, segment: string)
  {
    key == PathMatchParam || key == PathMatchVague || key == segment
  }

  /** The keys of a pattern (its first one being the root's) accept the leading segments of the split path `arr`. */
  predicate Accepts(keys: seq<string>, arr: seq<string>)
  {
    |keys| <= |arr| && forall j :: 1 <= j < |keys| ==> KeyAccepts(keys[j], arr[j])
  }

  /** A candidate Match may return for the split path `arr`. */
  predicate Candidate(n: Node, arr: seq<string>)
  {
    && n.handle.Some? && Terminal(n, arr) && 1 <= n.step <= |arr| - 1
    && Accepts(KeysOf(n.route), arr)
  }

  /** A node the search may stand on: its pattern accepts the path so far. */
  predicate OnPath(nodes: seq<Node>, arr: seq<string>, x: nat)
  {
    ValidNodes(nodes) && Selectable(nodes, arr, x) && Accepts(KeysOf(nodes[x].route), arr)
  }

  /** A child the search goes on to, under a key that accepts the next segment, is on the path too. */
  lemma ChildOnPath(nodes: seq<Node>, arr: seq<string>, x: nat, k: string)
    requires OnPath(nodes, arr, x) && !Terminal(nodes[x], arr)
    requires KeyAccepts(k, arr[nodes[x].step + 1])
    ensures forall y :: y in ChildList(nodes, x, k, arr) ==> OnPath(nodes, arr, y)
  {
    if k in nodes[x].child {
      ChildOk(nodes, x, k);
      var c := nodes[x].child[k];
      var d := nodes[x].step + 1;
      assert |nodes[x].route| == d && |nodes[c].route| == d + 1;
      assert KeysOf(nodes[c].route) == KeysOf(nodes[x].route) + [k];
      forall j | 1 <= j < |KeysOf(nodes[c].route)|
        ensures KeyAccepts(KeysOf(nodes[c].route)[j], arr[j])
      {
        if j < d {
          assert KeysOf(nodes[c].route)[j] == KeysOf(nodes[x].route)[j];
        }
      }
    }
  }

  /** Soundness below one node: everything the search finds under an on-path node is a candidate. */
  lemma {:induction false} SearchSound(nodes: seq<Node>, arr: seq<string>, x: nat)
    requires OnPath(nodes, arr, x)
    ensures forall n :: n in Search(nodes, x, arr) ==> Candidate(n, arr)
    decreases |arr| - nodes[x].step, 1
  {
    var n := nodes[x];
    if !Terminal(n, arr) {
      var d := n.step + 1;
      ChildOnPath(nodes, arr, x, arr[d]);
      ChildOnPath(nodes, arr, x, PathMatchParam);
      ChildOnPath(nodes, arr, x, PathMatchVague);
      SearchAllSound(nodes, arr, ChildList(nodes, x, arr[d], arr), d);
      SearchAllSound(nodes, arr, ChildList(nodes, x, PathMatchParam, arr), d);
      SearchAllSound(nodes, arr, ChildList(nodes, x, PathMatchVague, arr), d);
    }
  }

  lemma {:induction false} SearchAllSound(nodes: seq<Node>, arr: seq<string>, xs: seq<nat>, d: nat)
    requires forall y :: y in xs ==> Selectable(nodes, arr, y) && nodes[y].step == d
    requires forall y :: y in xs ==> OnPath(nodes, arr, y)
    ensures forall n :: n in SearchAll(nodes, xs, arr, d) ==> Candidate(n, arr)
    decreases |arr| - d + 1, 0, |xs|
  {
    if xs != [] {
      assert xs[0] in xs;
      SearchSound(nodes, arr, xs[0]);
      SearchAllSound(nodes, arr, xs[1..], d);
    }
  }

  /** Soundness over a stack of alternatives that are all on the path. */
  lemma {:induction false} StackSound(nodes: seq<Node>, arr: seq<string>, stack: seq<nat>)
    requires forall y :: y in stack ==> OnPath(nodes, arr, y)
    ensures StackOk(nodes, arr, stack)
    ensures forall n :: n in SearchStack(nodes, stack, arr) ==> Candidate(n, arr)
    decreases |stack|
  {
    if stack != [] {
      var top := stack[|stack| - 1];
      assert top in stack;
      SearchSound(nodes, arr, top);
      StackSound(nodes, arr, stack[..|stack| - 1]);
    }
  }

  /** The root's children Match starts from are all on the path. */
  lemma {:induction false} PicksOnPath(nodes: seq<Node>, arr: seq<string>, keys: seq<string>)
    requires ValidNodes(nodes) && |arr| >= 2
    requires forall j :: 0 <= j < |keys| ==> KeyAccepts(keys[j], arr[1])
    ensures forall y :: y in Picks(nodes, arr, keys) ==> OnPath(nodes, arr, y)
    decreases |keys|
  {
    if keys != [] {
      var k := keys[|keys| - 1];
      PicksOnPath(nodes, arr, keys[..|keys| - 1]);
      if k in nodes[0].child {
        ChildOk(nodes, 0, k);
        var c := nodes[0].child[k];
        assert KeysOf(nodes[c].route) == [""] + [k];
      }
    }
  }

  /** Match is sound: every node it returns carries a handle, ends its branch and has a pattern accepting the path. */
  lemma MatchSound(t: Table, paths: seq<string>)
    requires Valid(t)
    ensures var arr := Split(PathName(paths));
      forall n :: n in Match(t, paths) ==> Candidate(n, arr)
  {
    var route := PathName(paths);
    var arr := Split(route);
    SplitPathName(paths);
    if route in t.statics {
      var n := t.statics[route];
      assert n.route == arr;
      forall j | 1 <= j < |KeysOf(n.route)| ensures KeyAccepts(KeysOf(n.route)[j], arr[j]) {
      }
    } else {
      PicksOnPath(t.nodes, arr, RootKeys(arr));
      StackSound(t.nodes, arr, RootStack(t.nodes, arr));
    }
  }

  /** The patterns below `x` along `keys` that the search can reach: no `*` before the end, no deeper than the path. */
  predicate Reachable(nodes: seq<Node>, arr: seq<string>, x: nat, keys: seq<string>)
  {
    && Selectable(nodes, arr, x)
    && nodes[x].step + |keys| <= |arr| - 1
    && (forall j :: 0 <= j < |keys| ==> KeyAccepts(keys[j], arr[nodes[x].step + 1 + j]))
    && (forall j :: 0 <= j < |keys| - 1 ==> keys[j] != PathMatchVague)
    && (keys != [] ==> !Terminal(nodes[x], arr))
  }

  /** Completeness below one node: a handled node that ends its branch, reached along accepting keys, is found. */
  lemma {:induction false} SearchComplete(nodes: seq<Node>, arr: seq<string>, x: nat, keys: seq<string>, y: nat)
    requires Reachable(nodes, arr, x, keys)
    requires Follow(nodes, x, keys) == Some(y) && nodes[y].handle.Some? && Terminal(nodes[y], arr)
    ensures nodes[y] in Search(nodes, x, arr)
    decreases |keys|
  {
    if keys != [] {
      var c := ReachableChild(nodes, arr, x, keys);
      SearchComplete(nodes, arr, c, keys[1..], y);
      SearchChild(nodes, arr, x, keys[0]);
    }
  }

  /** The first key of a reachable pattern leads to a child from which the rest is reachable. */
  lemma ReachableChild(nodes: seq<Node>, arr: seq<string>, x: nat, keys: seq<string>) returns (c: nat)
    requires Reachable(nodes, arr, x, keys) && keys != []
    requires Follow(nodes, x, keys).Some?
    ensures keys[0] in nodes[x].child && c == nodes[x].child[keys[0]]
    ensures Follow(nodes, c, keys[1..]) == Follow(nodes, x, keys)
    ensures Reachable(nodes, arr, c, keys[1..])
  {
    var k := keys[0];
    assert EdgeOk(nodes, x, k);
    c := nodes[x].child[k];
    forall j | 0 <= j < |keys[1..]|
      ensures KeyAccepts(keys[1..][j], arr[nodes[c].step + 1 + j])
    {
      assert keys[1..][j] == keys[1 + j];
    }
  }

  /** Below a node that does not end its branch, everything found under an accepting child is found. */
  lemma SearchChild(nodes: seq<Node>, arr: seq<string>, x: nat, k: string)
    requires Selectable(nodes, arr, x) && !Terminal(nodes[x], arr) && k in nodes[x].child
    requires k == arr[nodes[x].step + 1] || k == PathMatchParam || k == PathMatchVague
    ensures Selectable(nodes, arr, nodes[x].child[k])
    ensures forall n :: n in Search(nodes, nodes[x].child[k], arr) ==> n in Search(nodes, x, arr)
  {
    var d := nodes[x].step + 1;
    var c := nodes[x].child[k];
    var kids := ChildList(nodes, x, k, arr);
    assert kids == [c] && SearchAll(nodes, kids, arr, d) == Search(nodes, c, arr) by {
      assert kids[1..] == [];
    }
  }

  /** A stack of alternatives yields everything found below each of its members. */
  lemma {:induction false} StackIncludes(nodes: seq<Node>, arr: seq<string>, stack: seq<nat>, z: nat)
    requires StackOk(nodes, arr, stack) && z in stack
    ensures forall n :: n in Search(nodes, z, arr) ==> n in SearchStack(nodes, stack, arr)
    decreases |stack|
  {
    if stack[|stack| - 1] != z {
      assert z in stack[..|stack| - 1] by {
        var i :| 0 <= i < |stack| && stack[i] == z;
        assert stack[..|stack| - 1][i] == z;
      }
      StackIncludes(nodes, arr, stack[..|stack| - 1], z);
    }
  }

  /** The root's child under one of `keys` is among the alternatives Match starts from. */
  lemma {:induction false} PicksInclude(nodes: seq<Node>, arr: seq<string>, keys: seq<string>, k: string)
    requires Searchable(nodes) && |arr| >= 2
    requires k in keys && k in nodes[0].child
    ensures nodes[0].child[k] in Picks(nodes, arr, keys)
    decreases |keys|
  {
    if keys[|keys| - 1] != k {
      assert k in keys[..|keys| - 1] by {
        var i :| 0 <= i < |keys| && keys[i] == k;
        assert keys[..|keys| - 1][i] == k;
      }
      PicksInclude(nodes, arr, keys[..|keys| - 1], k);
    }
  }

  /** The search from the root's alternatives finds every handled node reached along accepting keys. */
  lemma RootComplete(nodes: seq<Node>, arr: seq<string>, keys: seq<string>, y: nat)
    requires Searchable(nodes) && |arr| >= 2 && keys != [] && |keys| <= |arr| - 1
    requires forall j :: 0 <= j < |keys| ==> KeyAccepts(keys[j], arr[1 + j])
    requires forall j :: 0 <= j < |keys| - 1 ==> keys[j] != PathMatchVague
    requires Follow(nodes, 0, keys) == Some(y) && nodes[y].handle.Some? && Terminal(nodes[y], arr)
    ensures nodes[y] in SearchStack(nodes, RootStack(nodes, arr), arr)
  {
    var k := keys[0];
    var c := RootChild(nodes, arr, keys);
    SearchComplete(nodes, arr, c, keys[1..], y);
    assert k in RootKeys(arr);
    PicksInclude(nodes, arr, RootKeys(arr), k);
    StackIncludes(nodes, arr, RootStack(nodes, arr), c);
  }

  /** The root's child under the first key, from which the rest of the keys is reachable. */
  lemma RootChild(nodes: seq<Node>, arr: seq<string>, keys: seq<string>) returns (c: nat)
    requires Searchable(nodes) && |arr| >= 2 && keys != [] && |keys| <= |arr| - 1
    requires forall j :: 0 <= j < |keys| ==> KeyAccepts(keys[j], arr[1 + j])
    requires forall j :: 0 <= j < |keys| - 1 ==> keys[j] != PathMatchVague
    requires Follow(nodes, 0, keys).Some?
    ensures keys[0] in nodes[0].child && c == nodes[0].child[keys[0]]
    ensures Follow(nodes, c, keys[1..]) == Follow(nodes, 0, keys)
    ensures Reachable(nodes, arr, c, keys[1..])
  {
    var k := keys[0];
    assert EdgeOk(nodes, 0, k);
    c := nodes[0].child[k];
    forall j | 0 <= j < |keys[1..]|
      ensures KeyAccepts(keys[1..][j], arr[nodes[c].step + 1 + j])
    {
      assert keys[1..][j] == keys[1 + j];
    }
  }

  /**
   * Match is complete for the trie: when no static route takes the path, every handled node that ends
   * its branch and is reached from the root along keys accepting the path, with no `*` before the last
   * key, is among the nodes returned.
   */
  lemma MatchComplete(t: Table, paths: seq<string>, keys: seq<string>, y: nat)
    requires Valid(t) && PathName(paths) !in t.statics
    requires var arr := Split(PathName(paths));
      && keys != [] && |keys| <= |arr| - 1
      && (forall j :: 0 <= j < |keys| ==> KeyAccepts(keys[j], arr[1 + j]))
      && (forall j :: 0 <= j < |keys| - 1 ==> keys[j] != PathMatchVague)
      && Follow(t.nodes, 0, keys) == Some(y) && t.nodes[y].handle.Some? && Terminal(t.nodes[y], arr)
    ensures t.nodes[y] in Match(t, paths)
  {
    var arr := Split(PathName(paths));
    SplitPathName(paths);
    RootComplete(t.nodes, arr, keys, y);
  }

  /** The root's alternatives when the path's first segment is `*` and the root has a `*` child. */
  lemma RootStackTwice(nodes: seq<Node>, arr: seq<string>)
    requires Searchable(nodes) && |arr| >= 2 && arr[1] == PathMatchVague && PathMatchVague in nodes[0].child
    ensures var c := nodes[0].child[PathMatchVague];
      RootStack(nodes, arr) == [c] + Picks(nodes, arr, [PathMatchParam]) + [c]
  {
    var c := nodes[0].child[PathMatchVague];
    var keys := RootKeys(arr);
    assert keys[..2] == [PathMatchVague, PathMatchParam];
    assert Picks(nodes, arr, [PathMatchVague]) == [c] by {
      assert [PathMatchVague][..0] == [];
    }
    assert Picks(nodes, arr, [PathMatchParam]) == (if PathMatchParam in nodes[0].child then [nodes[0].child[PathMatchParam]] else []) by {
      assert [PathMatchParam][..0] == [];
    }
    assert Picks(nodes, arr, keys[..2]) == [c] + Picks(nodes, arr, [PathMatchParam]) by {
      assert keys[..2][..1] == [PathMatchVague];
    }
  }

  /** Pushing an alternative puts what is found below it first. */
  lemma StackPush(nodes: seq<Node>, arr: seq<string>, stack: seq<nat>, z: nat)
    requires StackOk(nodes, arr, stack + [z])
    ensures StackOk(nodes, arr, stack) && Selectable(nodes, arr, z)
    ensures SearchStack(nodes, stack + [z], arr) == Search(nodes, z, arr) + SearchStack(nodes, stack, arr)
  {
    assert z in stack + [z];
    assert (stack + [z])[..|stack|] == stack;
    forall y | y in stack ensures Selectable(nodes, arr, y) {
      assert y in stack + [z];
    }
  }

  /** A stack stacked on another: the upper part is searched first. */
  lemma {:induction false} StackAppend(nodes: seq<Node>, arr: seq<string>, lower: seq<nat>, upper: seq<nat>)
    requires StackOk(nodes, arr, lower + upper)
    ensures StackOk(nodes, arr, lower) && StackOk(nodes, arr, upper)
    ensures SearchStack(nodes, lower + upper, arr) == SearchStack(nodes, upper, arr) + SearchStack(nodes, lower, arr)
    decreases |upper|
  {
    if upper == [] {
      assert lower + upper == lower;
    } else {
      var z := upper[|upper| - 1];
      var rest := upper[..|upper| - 1];
      assert lower + upper == (lower + rest) + [z];
      assert upper == rest + [z];
      StackPush(nodes, arr, lower + rest, z);
      StackAppend(nodes, arr, lower, rest);
      StackPush(nodes, arr, rest, z);
    }
  }

  /** Searching a stack with the same alternative at the bottom and the top. */
  lemma StackTwice(nodes: seq<Node>, arr: seq<string>, c: nat, par: seq<nat>)
    requires StackOk(nodes, arr, [c] + par + [c])
    ensures Selectable(nodes, arr, c)
    ensures exists mid :: SearchStack(nodes, [c] + par + [c], arr) == Search(nodes, c, arr) + mid + Search(nodes, c, arr)
  {
    StackAppend(nodes, arr, [c] + par, [c]);
    StackAppend(nodes, arr, [c], par);
    StackPush(nodes, arr, [], c);
    assert [] + [c] == [c];
    var one := SearchStack(nodes, [c], arr);
    assert one == Search(nodes, c, arr) + [];
    var mid := SearchStack(nodes, par, arr);
    assert SearchStack(nodes, [c] + par + [c], arr) == one + (mid + one);
    assert one + (mid + one) == Search(nodes, c, arr) + mid + Search(nodes, c, arr);
  }

  /**
   * When the path's first segment is itself `*`, the root's `*` child is pushed twice (once as the
   * wildcard alternative, once as the literal child), so whatever lies below it is reported twice.
   */
  lemma RootWildcardTwice(nodes: seq<Node>, arr: seq<string>)
    requires Searchable(nodes) && |arr| >= 2 && arr[1] == PathMatchVague && PathMatchVague in nodes[0].child
    ensures var c := nodes[0].child[PathMatchVague];
      && Selectable(nodes, arr, c)
      && exists mid :: SearchStack(nodes, RootStack(nodes, arr), arr) == Search(nodes, c, arr) + mid + Search(nodes, c, arr)
  {
    var c := nodes[0].child[PathMatchVague];
    RootStackTwice(nodes, arr);
    StackTwice(nodes, arr, c, Picks(nodes, arr, [PathMatchParam]));
  }

  /** The root's alternatives when the path's first segment is `:` and the root has a `:` child. */
  lemma RootStackParam(nodes: seq<Node>, arr: seq<string>)
    requires Searchable(nodes) && |arr| >= 2 && arr[1] == PathMatchParam && PathMatchParam in nodes[0].child
    ensures var c := nodes[0].child[PathMatchParam];
      && RootStack(nodes, arr) == Picks(nodes, arr, [PathMatchVague]) + [c, c]
      && (PathMatchVague !in nodes[0].child ==> RootStack(nodes, arr) == [c, c])
  {
    var c := nodes[0].child[PathMatchParam];
    var keys := RootKeys(arr);
    assert keys[..2] == [PathMatchVague, PathMatchParam];
    assert Picks(nodes, arr, keys[..2]) == Picks(nodes, arr, [PathMatchVague]) + [c] by {
      assert keys[..2][..1] == [PathMatchVague];
    }
    assert Picks(nodes, arr, [PathMatchVague]) == (if PathMatchVague in nodes[0].child then [nodes[0].child[PathMatchVague]] else []) by {
      assert [PathMatchVague][..0] == [];
    }
  }

  /**
   * When the path's first segment is itself `:`, the root's `:` child is pushed twice (once as the
   * parameter alternative, once as the literal child) and is searched twice in a row, before anything
   * below a `*` child; with no `*` child those two searches are all there is.
   */
  lemma RootParamTwice(nodes: seq<Node>, arr: seq<string>)
    requires Searchable(nodes) && |arr| >= 2 && arr[1] == PathMatchParam && PathMatchParam in nodes[0].child
    ensures var c := nodes[0].child[PathMatchParam];
      && Selectable(nodes, arr, c)
      && (exists rest :: SearchStack(nodes, RootStack(nodes, arr), arr) == Search(nodes, c, arr) + Search(nodes, c, arr) + rest)
      && (PathMatchVague !in nodes[0].child ==>
            SearchStack(nodes, RootStack(nodes, arr), arr) == Search(nodes, c, arr) + Search(nodes, c, arr))
  {
    var c := nodes[0].child[PathMatchParam];
    var w := Picks(nodes, arr, [PathMatchVague]);
    RootStackParam(nodes, arr);
    StackAppend(nodes, arr, w, [c, c]);
    assert [c, c] == [c] + [c];
    StackPush(nodes, arr, [c], c);
    StackPush(nodes, arr, [], c);
    assert [] + [c] == [c];
    var one := Search(nodes, c, arr);
    assert SearchStack(nodes, [c, c], arr) == one + one + SearchStack(nodes, [], arr);
    var rest := SearchStack(nodes, w, arr);
    assert SearchStack(nodes, RootStack(nodes, arr), arr) == one + one + rest;
    if PathMatchVague !in nodes[0].child {
      assert SearchStack(nodes, RootStack(nodes, arr), arr) == one + one + SearchStack(nodes, [], arr);
    }
  }

  /**
   * The root path normalises to "/", which splits into two empty elements, so it has one (empty)
   * segment: a root-level `:` or `*` node carrying a handle is returned for it, unless "/" is static.
   */
  lemma RootPathMatches(t: Table, key: string, y: nat)
    requires Valid(t) && "/" !in t.statics && (key == PathMatchParam || key == PathMatchVague)
    requires Follow(t.nodes, 0, [key]) == Some(y) && t.nodes[y].handle.Some?
    ensures PathName([]) == "/" && Split("/") == ["", ""]
    ensures t.nodes[y] in Match(t, [])
  {
    PathNameRoot();
    assert "/"[1..] == "";
    MatchComplete(t, [], [key], y);
  }
}

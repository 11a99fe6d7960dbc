/**
 * The `Router` of router.go: the root of the trie together with the static index,
 * updated in place by `Register` and `addChild`, and searched by `Match` with an
 * explicit stack of alternatives. Each method is proved against the specification
 * functions of module Trie.
 */
module Router {
  import opened Common
  import opened Paths
  import opened Trie
  import RouteParams

  class Router {
    /** The trie's nodes; index 0 is this root. */
    var nodes: seq<Node>
    /** The static index: fully literal patterns and their nodes. */
    var statics: map<string, Node>

    /** The routing table this object holds. */
    function Table(): Trie.Table
      reads this
    {
      Trie.Table(nodes, statics)
    }

    predicate Valid()
      reads this
    {
      Trie.Valid(Table())
    }

    /** `NewRouter()`. */
    constructor ()
      ensures Valid() && Table() == Empty()
    {
      nodes := [Root];
      statics := map[];
    }

    /** `addChild(arr, step)` on node `at`. */
    method AddChild(at: nat, arr: seq<string>, step: nat) returns (node: Option<nat>, err: Option<RouteError>)
      requires ValidNodes(nodes) && at < |nodes| && step < |arr|
      modifies this
      ensures statics == old(statics)
      ensures ChildResult(nodes, node, err) == Trie.AddChild(old(nodes), at, arr, step)
    {
      var name := NodeName(arr[step]);
      var index := |arr| - 1;
      if name == PathMatchVague && index != step {
        return None, Some(WildcardNotAtEnd(Join(arr)));
      }
      err := None;
      node := if name in nodes[at].child then Some(nodes[at].child[name]) else None;
      if node.Some? && nodes[node.value].handle.Some? && index == step {
        err := Some(RouteExists(Join(arr)));
        return;
      }
      if node.None? {
        var idx := |nodes|;
        nodes := nodes[at := nodes[at].(child := nodes[at].child[name := idx])] + [NewNode(name, arr, step)];
        node := Some(idx);
      }
    }

    /**
     * `Register(route, handle)`. The wildcard error, on which the source goes on to print the nil
     * node it got back, is returned as the error.
     */
    method Register(route: string, h: Handle) returns (err: Option<RouteError>)
      requires Valid()
      modifies this
      ensures Valid()
      ensures (Table(), err) == Trie.Register(old(Table()), route, h)
    {
      if route == "" {
        return Some(EmptyRoute);
      }
      var key := PathName([route]);
      var arr := Split(key);
      SplitPathName([route]);
      if ':' !in key && '*' !in key {
        if key in statics {
          err := Some(RouteExists(key));
        } else {
          statics := statics[key := NewStatic(arr, h)];
          err := None;
        }
        return;
      }
      err := RegisterPattern(arr, h);
    }

    /** `Register` with the corrected trie walk, which reuses the nodes at every depth. */
    method RegisterReusing(route: string, h: Handle) returns (err: Option<RouteError>)
      requires Valid()
      modifies this
      ensures Valid()
      ensures (Table(), err) == Trie.RegisterReusing(old(Table()), route, h)
    {
      if route == "" || IsStatic(PathName([route])) {
        err := Register(route, h);
        return;
      }
      var arr := Split(PathName([route]));
      SplitPathName([route]);
      err := RegisterPatternReusing(arr, h);
    }

    /**
     * The part of `Register` that walks the trie, for a pattern with a `:` or `*` in it, as written:
     * depth 1 always gets a fresh node, which replaces the root's existing child.
     */
    method RegisterPattern(arr: seq<string>, h: Handle) returns (err: Option<RouteError>)
      requires ValidNodes(nodes) && |arr| >= 2 && arr[0] == ""
      modifies this
      ensures statics == old(statics)
      ensures (nodes, err) == RegisterDynamic(old(nodes), arr, h)
    {
      err := None;
      var node: Option<nat> := None;
      for i := 1 to |arr|
        invariant statics == old(statics) && err.None?
        invariant i == 1 ==> node.None? && nodes == old(nodes)
        invariant i >= 2 ==> (node.Some? && WalkReady(nodes, arr, i, node.value)
          && RegisterDynamic(old(nodes), arr, h) == Walk(nodes, arr, i, node.value, h))
      {
        if node.None? {
          var idx := |nodes|;
          var first := NewNode(NodeName(arr[1]), arr, 1);
          nodes := nodes[0 := nodes[0].(child := nodes[0].child[first.name := idx])] + [first];
          node := Some(idx);
          assert nodes == FirstStep(old(nodes), arr);
        } else {
          AddChildReady(nodes, node.value, arr, i);
          node, err := AddChild(node.value, arr, i);
          if err.Some? {
            return;
          }
        }
      }
      if node.Some? {
        nodes := nodes[node.value := nodes[node.value].(handle := Some(h))];
      }
    }

    /** The trie walk of `Register` with every depth going through `addChild`, so that existing nodes are reused. */
    method RegisterPatternReusing(arr: seq<string>, h: Handle) returns (err: Option<RouteError>)
      requires ValidNodes(nodes) && |arr| >= 2 && arr[0] == ""
      modifies this
      ensures statics == old(statics)
      ensures (nodes, err) == RegisterDynamicReusing(old(nodes), arr, h)
    {
      err := None;
      var node: nat := 0;
      assert KeysOf(arr[..1]) == [""] == KeysOf(nodes[0].route);
      for i := 1 to |arr|
        invariant statics == old(statics) && err.None?
        invariant WalkReady(nodes, arr, i, node)
        invariant RegisterDynamicReusing(old(nodes), arr, h) == Walk(nodes, arr, i, node, h)
      {
        AddChildReady(nodes, node, arr, i);
        var next;
        next, err := AddChild(node, arr, i);
        if err.Some? {
          return;
        }
        node := next.value;
      }
      nodes := nodes[node := nodes[node].(handle := Some(h))];
    }

    /** `Match(paths...)`: the static node alone, or the trie's candidates found by backtracking. */
    method Match(paths: seq<string>) returns (found: seq<Node>)
      requires Valid()
      ensures found == Trie.Match(Table(), paths)
    {
      var route := PathName(paths);
      if route in statics {
        return [statics[route]];
      }
      var arr := Split(route);
      SplitPathName(paths);
      var spare: seq<nat> := [];
      var keys := RootKeys(arr);
      for j := 0 to |keys|
        invariant spare == Picks(nodes, arr, keys[..j])
      {
        if keys[j] in nodes[0].child {
          spare := spare + [nodes[0].child[keys[j]]];
        }
        assert keys[..j + 1][..j] == keys[..j];
      }
      assert keys[..|keys|] == keys;

      found := Backtrack(arr, spare);
    }

    /** Match's loop: pop an alternative or go on from the selected node until both are exhausted. */
    method Backtrack(arr: seq<string>, spareNode: seq<nat>) returns (found: seq<Node>)
      requires Searchable(nodes) && |arr| >= 2 && StackOk(nodes, arr, spareNode)
      ensures found == SearchStack(nodes, spareNode, arr)
    {
      var lastPathIndex := |arr| - 1;
      var spare := spareNode;
      var select: Option<nat> := None;
      found := [];
      var n := |spare|;
      while select.Some? || n > 0
        invariant n == |spare| && StackOk(nodes, arr, spare)
        invariant SelectOk(nodes, arr, select)
        invariant found + Pending(nodes, select, arr) + SearchStack(nodes, spare, arr)
          == SearchStack(nodes, spareNode, arr)
        decreases WorkStack(nodes, spare, arr) + PendingWork(nodes, select, arr)
      {
        if select.None? {
          PopStep(nodes, arr, spare);
          Regroup(found, [], SearchStack(nodes, spare, arr), Search(nodes, spare[n - 1], arr),
            SearchStack(nodes, spare[..n - 1], arr), SearchStack(nodes, spareNode, arr));
          n := n - 1;
          select := Some(spare[n]);
          spare := spare[..n];
        }
        var x := nodes[select.value];
        ghost var pending := Search(nodes, select.value, arr);
        ghost var rest := SearchStack(nodes, spare, arr);
        if x.name == PathMatchVague || x.step == lastPathIndex {
          assert pending == if x.handle.Some? then [x] else [];
          ghost var was := found;
          if x.handle.Some? {
            found := found + [x];
          }
          select := None;
          assert found == was + pending;
          Absorb(was, pending, rest, SearchStack(nodes, spareNode, arr));
        } else {
          var at := select.value;
          spare, select := Expand(arr, at, spare);
          n := |spare|;
          Regroup(found, pending, rest, Pending(nodes, select, arr),
            SearchStack(nodes, spare, arr), SearchStack(nodes, spareNode, arr));
        }
      }
    }

    /** The turn of Match's loop that goes on from node `at`: push its `*` child, then its `:` child, and select its child for the next segment. */
    method Expand(arr: seq<string>, at: nat, before: seq<nat>) returns (spare: seq<nat>, select: Option<nat>)
      requires Selectable(nodes, arr, at) && !Terminal(nodes[at], arr) && StackOk(nodes, arr, before)
      ensures StackOk(nodes, arr, spare)
      ensures SelectOk(nodes, arr, select)
      ensures Pending(nodes, select, arr) + SearchStack(nodes, spare, arr)
        == Search(nodes, at, arr) + SearchStack(nodes, before, arr)
      ensures PendingWork(nodes, select, arr) + WorkStack(nodes, spare, arr)
        < Work(nodes, at, arr) + WorkStack(nodes, before, arr)
    {
      var x := nodes[at];
      var k := arr[x.step + 1];
      spare := before;
      if PathMatchVague in x.child {
        spare := spare + [x.child[PathMatchVague]];
      }
      assert spare == before + ChildList(nodes, at, PathMatchVague, arr);
      var mid := spare;
      if PathMatchParam in x.child {
        spare := spare + [x.child[PathMatchParam]];
      }
      assert spare == mid + ChildList(nodes, at, PathMatchParam, arr);
      if k in x.child {
        select := Some(x.child[k]);
      } else {
        select := None;
      }
      assert Expanded(nodes, arr, at, before, spare, select);
      ExpandStep(nodes, arr, at, before, spare, select);
      ExpandWork(nodes, arr, at, before, spare, select);
    }
  }

  /** Moving what was pending into what was found keeps the total. */
  lemma Absorb(found: seq<Node>, pending: seq<Node>, rest: seq<Node>, total: seq<Node>)
    requires found + pending + rest == total
    ensures (found + pending) + [] + rest == total
  {
    assert (found + pending) + [] == found + pending;
  }

  /** Trading what is pending for an equal split keeps the total. */
  lemma Regroup(found: seq<Node>, pending: seq<Node>, rest: seq<Node>, pending': seq<Node>, rest': seq<Node>, total: seq<Node>)
    requires found + pending + rest == total && pending + rest == pending' + rest'
    ensures found + pending' + rest' == total
  {
    assert found + pending + rest == found + (pending + rest);
    assert found + pending' + rest' == found + (pending' + rest');
  }

  /** What one turn of Match's loop does on a node `x` that does not end its branch: push `x`'s `*` child, then its `:` child, and select its child for the next segment. */
  predicate Expanded(nodes: seq<Node>, arr: seq<string>, x: nat, before: seq<nat>, after: seq<nat>, select: Option<nat>)
  {
    && Selectable(nodes, arr, x) && !Terminal(nodes[x], arr) && StackOk(nodes, arr, before)
    && var n := nodes[x];
    && after == before + ChildList(nodes, x, PathMatchVague, arr) + ChildList(nodes, x, PathMatchParam, arr)
    && select == (if arr[n.step + 1] in n.child then Some(n.child[arr[n.step + 1]]) else None)
  }

  /** Such a turn accounts for exactly the candidates below `x`. */
  lemma ExpandStep(nodes: seq<Node>, arr: seq<string>, x: nat, before: seq<nat>, after: seq<nat>, select: Option<nat>)
    requires Expanded(nodes, arr, x, before, after, select)
    ensures StackOk(nodes, arr, after)
    ensures SelectOk(nodes, arr, select)
    ensures Pending(nodes, select, arr) + SearchStack(nodes, after, arr)
      == Search(nodes, x, arr) + SearchStack(nodes, before, arr)
  {
    var d := nodes[x].step + 1;
    var lit := ChildList(nodes, x, arr[d], arr);
    var par := ChildList(nodes, x, PathMatchParam, arr);
    var wild := ChildList(nodes, x, PathMatchVague, arr);
    assert Pending(nodes, select, arr) == SearchAll(nodes, lit, arr, d) by {
      SelectAll(nodes, arr, lit, d);
    }
    assert SearchStack(nodes, before + wild, arr) == SearchAll(nodes, wild, arr, d) + SearchStack(nodes, before, arr) by {
      PushAll(nodes, arr, before, wild, d);
    }
    assert SearchStack(nodes, after, arr) == SearchAll(nodes, par, arr, d) + SearchStack(nodes, before + wild, arr) by {
      PushAll(nodes, arr, before, wild, d);
      PushAll(nodes, arr, before + wild, par, d);
    }
    assert Search(nodes, x, arr) == SearchAll(nodes, lit, arr, d) + SearchAll(nodes, par, arr, d) + SearchAll(nodes, wild, arr, d) by {
      SearchUnfold(nodes, x, arr);
    }
    Tally(Pending(nodes, select, arr), SearchAll(nodes, par, arr, d), SearchAll(nodes, wild, arr, d),
      SearchStack(nodes, before, arr), SearchStack(nodes, before + wild, arr), SearchStack(nodes, after, arr), Search(nodes, x, arr));
  }

  /** Such a turn leaves strictly fewer turns to go. */
  lemma ExpandWork(nodes: seq<Node>, arr: seq<string>, x: nat, before: seq<nat>, after: seq<nat>, select: Option<nat>)
    requires Expanded(nodes, arr, x, before, after, select)
    requires StackOk(nodes, arr, after) && SelectOk(nodes, arr, select)
    ensures PendingWork(nodes, select, arr) + WorkStack(nodes, after, arr)
      < Work(nodes, x, arr) + WorkStack(nodes, before, arr)
  {
    var d := nodes[x].step + 1;
    var lit := ChildList(nodes, x, arr[d], arr);
    var par := ChildList(nodes, x, PathMatchParam, arr);
    var wild := ChildList(nodes, x, PathMatchVague, arr);
    var sel := PendingWork(nodes, select, arr);
    var l, p, w := WorkAll(nodes, lit, arr, d), WorkAll(nodes, par, arr, d), WorkAll(nodes, wild, arr, d);
    assert sel == l by {
      SelectAll(nodes, arr, lit, d);
    }
    assert Work(nodes, x, arr) == 1 + l + p + w by {
      SearchUnfold(nodes, x, arr);
    }
    assert WorkStack(nodes, before + wild, arr) == w + WorkStack(nodes, before, arr) by {
      PushAll(nodes, arr, before, wild, d);
    }
    assert WorkStack(nodes, after, arr) == p + WorkStack(nodes, before + wild, arr) by {
      PushAll(nodes, arr, before, wild, d);
      PushAll(nodes, arr, before + wild, par, d);
    }
    WorkTally(sel, l, p, w, WorkStack(nodes, before, arr), WorkStack(nodes, before + wild, arr),
      WorkStack(nodes, after, arr), Work(nodes, x, arr));
  }

  /** The work of one turn, regrouped: the turn itself is the one unit that is gone. */
  lemma WorkTally(sel: int, l: int, p: int, w: int, b: int, bw: int, after: int, here: int)
    requires sel == l && here == 1 + l + p + w && bw == w + b && after == p + bw
    ensures sel + after < here + b
  {
  }

  /** The candidates of one turn, regrouped: what is selected, then what was pushed, then what was below. */
  lemma Tally(l: seq<Node>, p: seq<Node>, w: seq<Node>, b: seq<Node>, bw: seq<Node>, after: seq<Node>, here: seq<Node>)
    requires bw == w + b && after == p + bw && here == l + p + w
    ensures l + after == here + b
  {
  }

  /** The candidates below a node that does not end its branch: literal child's, then `:` child's, then `*` child's. */
  lemma SearchUnfold(nodes: seq<Node>, x: nat, arr: seq<string>)
    requires Selectable(nodes, arr, x) && !Terminal(nodes[x], arr)
    ensures var d := nodes[x].step + 1;
      && Search(nodes, x, arr) == SearchAll(nodes, ChildList(nodes, x, arr[d], arr), arr, d)
        + SearchAll(nodes, ChildList(nodes, x, PathMatchParam, arr), arr, d)
        + SearchAll(nodes, ChildList(nodes, x, PathMatchVague, arr), arr, d)
      && Work(nodes, x, arr) == 1 + WorkAll(nodes, ChildList(nodes, x, arr[d], arr), arr, d)
        + WorkAll(nodes, ChildList(nodes, x, PathMatchParam, arr), arr, d)
        + WorkAll(nodes, ChildList(nodes, x, PathMatchVague, arr), arr, d)
  {
  }

  /** The alternatives below at most one node are that node's, if any. */
  lemma SelectAll(nodes: seq<Node>, arr: seq<string>, xs: seq<nat>, d: nat)
    requires |xs| <= 1
    requires forall y :: y in xs ==> Selectable(nodes, arr, y) && nodes[y].step == d
    ensures xs != [] ==> Selectable(nodes, arr, xs[0])
    ensures SearchAll(nodes, xs, arr, d) == if xs == [] then [] else Search(nodes, xs[0], arr)
    ensures WorkAll(nodes, xs, arr, d) == if xs == [] then 0 else Work(nodes, xs[0], arr)
  {
    if xs != [] {
      assert xs[0] in xs;
      assert xs[1..] == [];
    }
  }

  /** Pushing at most one alternative puts its candidates and its work in front of the stack's. */
  lemma PushAll(nodes: seq<Node>, arr: seq<string>, stack: seq<nat>, pushed: seq<nat>, d: nat)
    requires StackOk(nodes, arr, stack) && |pushed| <= 1
    requires forall y :: y in pushed ==> Selectable(nodes, arr, y) && nodes[y].step == d
    ensures StackOk(nodes, arr, stack + pushed)
    ensures SearchStack(nodes, stack + pushed, arr) == SearchAll(nodes, pushed, arr, d) + SearchStack(nodes, stack, arr)
    ensures WorkStack(nodes, stack + pushed, arr) == WorkAll(nodes, pushed, arr, d) + WorkStack(nodes, stack, arr)
  {
    SelectAll(nodes, arr, pushed, d);
    if pushed == [] {
      assert stack + pushed == stack;
    } else {
      PushOne(nodes, arr, stack, pushed[0]);
      assert pushed == [pushed[0]];
    }
  }

  /** Pushing one alternative puts its candidates and its work in front of the stack's. */
  lemma PushOne(nodes: seq<Node>, arr: seq<string>, stack: seq<nat>, y: nat)
    requires StackOk(nodes, arr, stack) && Selectable(nodes, arr, y)
    ensures StackOk(nodes, arr, stack + [y])
    ensures SearchStack(nodes, stack + [y], arr) == Search(nodes, y, arr) + SearchStack(nodes, stack, arr)
    ensures WorkStack(nodes, stack + [y], arr) == Work(nodes, y, arr) + WorkStack(nodes, stack, arr)
  {
    var s := stack + [y];
    assert s[..|s| - 1] == stack && s[|s| - 1] == y;
  }

  /** Popping the top of a non-empty stack of alternatives. */
  lemma PopStep(nodes: seq<Node>, arr: seq<string>, stack: seq<nat>)
    requires StackOk(nodes, arr, stack) && stack != []
    ensures var top, rest := stack[|stack| - 1], stack[..|stack| - 1];
      && Selectable(nodes, arr, top) && StackOk(nodes, arr, rest)
      && SearchStack(nodes, stack, arr) == Search(nodes, top, arr) + SearchStack(nodes, rest, arr)
      && WorkStack(nodes, stack, arr) == Work(nodes, top, arr) + WorkStack(nodes, rest, arr)
  {
    assert stack[|stack| - 1] in stack;
  }

  /** `Params(paths...)` on a node `n` that Match returned: one pass over the positions both the pattern and the path have. */
  method Params(n: Node, paths: seq<string>) returns (r: map<string, string>)
    ensures r == RouteParams.Params(n, paths)
  {
    r := map[];
    var arr := Split(PathName(paths));
    var m := |arr|;
    if m > |n.route| {
      m := |n.route|;
    }
    for i := 0 to m
      invariant r == RouteParams.ParamsUpTo(n.route, arr, i)
    {
      var s := n.route[i];
      if HasPrefix(s, PathMatchParam) {
        var k := s[|PathMatchParam|..];
        r := r[k := arr[i]];
      } else if HasPrefix(s, PathMatchVague) {
        var k := s[|PathMatchVague|..];
        if k == "" {
          k := PathMatchVague;
        }
        r := r[k := Join(arr[i..])];
      }
    }
  }
}

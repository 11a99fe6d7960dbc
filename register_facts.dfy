/**
 * What registering a pattern with a `:` or `*` in it does to the trie, both as router.go writes it
 * (the first level always gets a fresh node) and as it is evidently meant to work (every level goes
 * through `addChild`).
 */
module RegisterFacts {
  import opened Common
  import opened Paths
  import opened Trie

  /** Node `b` is node `a` with possibly more children and, where `a` had none, possibly a handle. */
  predicate Grows(a: Node, b: Node)
  {
    && b.step == a.step && b.name == a.name && b.route == a.route
    && (forall k :: k in a.child ==> k in b.child && b.child[k] == a.child[k])
    && (a.handle.Some? ==> b.handle == a.handle)
  }

  /** Table `after` keeps every node of `before` at its index, grown. */
  predicate Extends(before: seq<Node>, after: seq<Node>)
  {
    |before| <= |after| && forall i :: 0 <= i < |before| ==> Grows(before[i], after[i])
  }

  lemma ExtendsTrans(a: seq<Node>, b: seq<Node>, c: seq<Node>)
    requires Extends(a, b) && Extends(b, c)
    ensures Extends(a, c)
  {
    forall i | 0 <= i < |a| ensures Grows(a[i], c[i]) {
      assert Grows(a[i], b[i]) && Grows(b[i], c[i]);
    }
  }

  /** Whatever can be reached in a table can still be reached, at the same index, in any extension of it. */
  lemma {:induction false} FollowExtends(before: seq<Node>, after: seq<Node>, at: nat, keys: seq<string>)
    requires Linked(before) && Linked(after) && Extends(before, after) && at < |before|
    requires Follow(before, at, keys).Some?
    ensures Follow(after, at, keys) == Follow(before, at, keys)
    decreases |keys|
  {
    if keys != [] {
      assert Grows(before[at], after[at]);
      assert EdgeOk(before, at, keys[0]);
      FollowExtends(before, after, before[at].child[keys[0]], keys[1..]);
    }
  }

  /** The keys reach a node that carries a handle. */
  predicate Handled(nodes: seq<Node>, at: nat, keys: seq<string>)
    requires Linked(nodes) && at < |nodes|
  {
    Follow(nodes, at, keys).Some? && nodes[Follow(nodes, at, keys).value].handle.Some?
  }

  /** Some segment of `arr` from index `i` on, other than the last, is a `*` segment. */
  predicate WildcardInside(arr: seq<string>, i: nat)
  {
    exists j :: i <= j < |arr| - 1 && NodeName(arr[j]) == PathMatchVague
  }

  /** The error `Register`'s walk reports, in terms of the table before it. */
  function WalkError(nodes: seq<Node>, arr: seq<string>, i: nat, cur: nat): Option<RouteError>
    requires Linked(nodes) && cur < |nodes| && i <= |arr|
  {
    if WildcardInside(arr, i) then Some(WildcardNotAtEnd(Join(arr)))
    else if Handled(nodes, cur, KeysOf(arr)[i..]) then Some(RouteExists(Join(arr)))
    else None
  }

  /** Following keys from a node: the first edge, then the rest. */
  lemma FollowStep(nodes: seq<Node>, at: nat, keys: seq<string>)
    requires Linked(nodes) && at < |nodes| && keys != [] && keys[0] in nodes[at].child
    ensures EdgeOk(nodes, at, keys[0])
    ensures Follow(nodes, at, keys) == Follow(nodes, nodes[at].child[keys[0]], keys[1..])
  {
  }

  lemma KeysTail(arr: seq<string>, i: nat)
    requires i < |arr|
    ensures KeysOf(arr)[i..] != [] && KeysOf(arr)[i..][0] == NodeName(arr[i])
    ensures KeysOf(arr)[i..][1..] == KeysOf(arr)[i + 1..]
  {
  }

  /** The keys reach a node that carries handle `h`. */
  predicate Reaches(nodes: seq<Node>, at: nat, keys: seq<string>, h: Handle)
    requires Linked(nodes) && at < |nodes|
  {
    Follow(nodes, at, keys).Some? && nodes[Follow(nodes, at, keys).value].handle == Some(h)
  }

  /** One `addChild` only grows the table; on success at the last step the node it returns carries no handle. */
  lemma AddChildGrows(nodes: seq<Node>, at: nat, arr: seq<string>, step: nat)
    requires ValidNodes(nodes) && at < |nodes| && step < |arr|
    ensures var c := AddChild(nodes, at, arr, step);
      && Extends(nodes, c.nodes)
      && (c.err.None? ==> c.node.Some? && c.node.value < |c.nodes|)
      && (c.err.None? && step == |arr| - 1 ==> c.nodes[c.node.value].handle.None?)
  {
    var c := AddChild(nodes, at, arr, step);
    forall j | 0 <= j < |nodes| ensures Grows(nodes[j], c.nodes[j]) {
    }
  }

  /** Setting the handle of a node that has none only grows the table. */
  lemma SetHandleGrows(nodes: seq<Node>, cur: nat, h: Handle)
    requires cur < |nodes| && nodes[cur].handle.None?
    ensures Extends(nodes, nodes[cur := nodes[cur].(handle := Some(h))])
  {
    var r := nodes[cur := nodes[cur].(handle := Some(h))];
    forall j | 0 <= j < |nodes| ensures Grows(nodes[j], r[j]) {
    }
  }

  /** One step of `Register`'s walk. */
  lemma WalkUnfold(nodes: seq<Node>, arr: seq<string>, i: nat, cur: nat, h: Handle)
    requires WalkReady(nodes, arr, i, cur) && i < |arr|
    ensures var c := AddChild(nodes, cur, arr, i);
      && (c.err.None? ==> c.node.Some? && WalkReady(c.nodes, arr, i + 1, c.node.value))
      && Walk(nodes, arr, i, cur, h) == if c.err.Some? then (c.nodes, c.err) else Walk(c.nodes, arr, i + 1, c.node.value, h)
  {
    AddChildReady(nodes, cur, arr, i);
  }

  /** The last step of `Register`'s walk sets the handle. */
  lemma WalkEnd(nodes: seq<Node>, arr: seq<string>, cur: nat, h: Handle)
    requires WalkReady(nodes, arr, |arr|, cur)
    ensures Walk(nodes, arr, |arr|, cur, h) == (nodes[cur := nodes[cur].(handle := Some(h))], None)
  {
  }

  /** The walk of `Register` (router.go's loop, `addChild` at every step) only grows the table. */
  lemma {:induction false} WalkExtends(nodes: seq<Node>, arr: seq<string>, i: nat, cur: nat, h: Handle)
    requires WalkReady(nodes, arr, i, cur)
    requires i == |arr| ==> nodes[cur].handle.None?
    ensures Extends(nodes, Walk(nodes, arr, i, cur, h).0)
    decreases |arr| - i
  {
    if i == |arr| {
      WalkEnd(nodes, arr, cur, h);
      SetHandleGrows(nodes, cur, h);
    } else {
      var c := AddChild(nodes, cur, arr, i);
      WalkUnfold(nodes, arr, i, cur, h);
      AddChildGrows(nodes, cur, arr, i);
      if c.err.None? {
        WalkExtends(c.nodes, arr, i + 1, c.node.value, h);
        ExtendsTrans(nodes, c.nodes, Walk(c.nodes, arr, i + 1, c.node.value, h).0);
      }
    }
  }

  /** A `*` segment that is not the last one fails the walk from step `i` exactly when it lies at `i` or after. */
  lemma WildcardStep(arr: seq<string>, i: nat)
    requires i < |arr| && (NodeName(arr[i]) != PathMatchVague || i == |arr| - 1)
    ensures WildcardInside(arr, i) == WildcardInside(arr, i + 1)
  {
    if WildcardInside(arr, i) {
      var j :| i <= j < |arr| - 1 && NodeName(arr[j]) == PathMatchVague;
      assert j != i;
    }
  }

  /**
   * The walk fails on a `*` segment that is not the last, or when the pattern already leads to a
   * node carrying a handle, and otherwise succeeds; on success the pattern leads to a node carrying `h`.
   */
  lemma {:induction false} WalkOutcome(nodes: seq<Node>, arr: seq<string>, i: nat, cur: nat, h: Handle)
    requires WalkReady(nodes, arr, i, cur)
    requires i == |arr| ==> nodes[cur].handle.None?
    ensures var r := Walk(nodes, arr, i, cur, h);
      && r.1 == WalkError(nodes, arr, i, cur)
      && (r.1.None? ==> Reaches(r.0, cur, KeysOf(arr)[i..], h))
    decreases |arr| - i
  {
    var keys := KeysOf(arr)[i..];
    if i < |arr| {
      KeysTail(arr, i);
      var name := NodeName(arr[i]);
      if name == PathMatchVague && |arr| - 1 != i {
        WalkUnfold(nodes, arr, i, cur, h);
        assert WildcardInside(arr, i);
      } else {
        WildcardStep(arr, i);
        if name !in nodes[cur].child {
          CreateOutcome(nodes, arr, i, cur, h);
        } else if nodes[nodes[cur].child[name]].handle.Some? && i == |arr| - 1 {
          DuplicateOutcome(nodes, arr, cur, h);
        } else {
          DescendOutcome(nodes, arr, i, cur, h);
        }
      }
    }
  }

  /** `WalkOutcome` where `addChild` finds the child it needs and goes on from it. */
  lemma {:induction false} DescendOutcome(nodes: seq<Node>, arr: seq<string>, i: nat, cur: nat, h: Handle)
    requires WalkReady(nodes, arr, i, cur) && i < |arr|
    requires NodeName(arr[i]) != PathMatchVague || i == |arr| - 1
    requires NodeName(arr[i]) in nodes[cur].child
    requires nodes[nodes[cur].child[NodeName(arr[i])]].handle.None? || i < |arr| - 1
    ensures var r := Walk(nodes, arr, i, cur, h);
      && r.1 == WalkError(nodes, arr, i, cur)
      && (r.1.None? ==> Reaches(r.0, cur, KeysOf(arr)[i..], h))
    decreases |arr| - i, 0
  {
    var keys := KeysOf(arr)[i..];
    KeysTail(arr, i);
    WildcardStep(arr, i);
    var y := nodes[cur].child[keys[0]];
    FollowStep(nodes, cur, keys);
    WalkUnfold(nodes, arr, i, cur, h);
    assert Walk(nodes, arr, i, cur, h) == Walk(nodes, arr, i + 1, y, h);
    assert Handled(nodes, cur, keys) == Handled(nodes, y, keys[1..]);
    assert WalkError(nodes, arr, i, cur) == WalkError(nodes, arr, i + 1, y);
    WalkOutcome(nodes, arr, i + 1, y, h);
    var r := Walk(nodes, arr, i + 1, y, h);
    if r.1.None? {
      WalkExtends(nodes, arr, i + 1, y, h);
      assert Grows(nodes[cur], r.0[cur]);
      FollowStep(r.0, cur, keys);
    }
  }

  /** `WalkOutcome` at the last step where the child exists and already carries a handle. */
  lemma DuplicateOutcome(nodes: seq<Node>, arr: seq<string>, cur: nat, h: Handle)
    requires |arr| >= 1 && WalkReady(nodes, arr, |arr| - 1, cur)
    requires var name := NodeName(arr[|arr| - 1]);
      name in nodes[cur].child && nodes[nodes[cur].child[name]].handle.Some?
    ensures Walk(nodes, arr, |arr| - 1, cur, h).1 == WalkError(nodes, arr, |arr| - 1, cur)
    ensures Walk(nodes, arr, |arr| - 1, cur, h).1.Some?
  {
    var i := |arr| - 1;
    var keys := KeysOf(arr)[i..];
    KeysTail(arr, i);
    var y := nodes[cur].child[keys[0]];
    FollowStep(nodes, cur, keys);
    WalkUnfold(nodes, arr, i, cur, h);
    assert !WildcardInside(arr, i);
    assert keys[1..] == [] && Follow(nodes, cur, keys) == Some(y);
    assert Walk(nodes, arr, i, cur, h) == (nodes, Some(RouteExists(Join(arr))));
  }

  /** `WalkOutcome` where `addChild` creates the child it needs. */
  lemma {:induction false} CreateOutcome(nodes: seq<Node>, arr: seq<string>, i: nat, cur: nat, h: Handle)
    requires WalkReady(nodes, arr, i, cur) && i < |arr|
    requires NodeName(arr[i]) != PathMatchVague || i == |arr| - 1
    requires NodeName(arr[i]) !in nodes[cur].child
    ensures var r := Walk(nodes, arr, i, cur, h);
      && r.1 == WalkError(nodes, arr, i, cur)
      && (r.1.None? ==> Reaches(r.0, cur, KeysOf(arr)[i..], h))
    decreases |arr| - i, 0
  {
    var keys := KeysOf(arr)[i..];
    KeysTail(arr, i);
    WildcardStep(arr, i);
    var c := AddChild(nodes, cur, arr, i);
    WalkUnfold(nodes, arr, i, cur, h);
    var idx := |nodes|;
    assert c.node == Some(idx) && c.err == None && c.nodes[idx].child == map[] && c.nodes[idx].handle == None;
    assert c.nodes[cur].child == nodes[cur].child[keys[0] := idx];
    assert !Handled(nodes, cur, keys);
    assert !Handled(c.nodes, idx, keys[1..]) by {
      if keys[1..] != [] {
        assert keys[1..][0] !in c.nodes[idx].child;
      }
    }
    assert Walk(nodes, arr, i, cur, h) == Walk(c.nodes, arr, i + 1, idx, h);
    assert WalkError(nodes, arr, i, cur) == WalkError(c.nodes, arr, i + 1, idx);
    WalkOutcome(c.nodes, arr, i + 1, idx, h);
    var r := Walk(c.nodes, arr, i + 1, idx, h);
    if r.1.None? {
      WalkExtends(c.nodes, arr, i + 1, idx, h);
      assert Grows(c.nodes[cur], r.0[cur]);
      FollowStep(r.0, cur, keys);
    }
  }

  // ---------------------------------------------------------------------------------
  // Register as router.go writes it: a fresh node at depth 1, overwriting the root's child

  /**
   * The pattern walk of `Register` never reports an existing route: it fails only on a `*` segment
   * that is neither the first nor the last, whatever the table already holds.
   */
  lemma RegisterDynamicOutcome(nodes: seq<Node>, arr: seq<string>, h: Handle)
    requires ValidNodes(nodes) && |arr| >= 2 && arr[0] == ""
    ensures RegisterDynamic(nodes, arr, h).1
      == if WildcardInside(arr, 2) then Some(WildcardNotAtEnd(Join(arr))) else None
  {
    var f := FirstStep(nodes, arr);
    var cur := |nodes|;
    WalkOutcome(f, arr, 2, cur, h);
    var keys := KeysOf(arr)[2..];
    assert !Handled(f, cur, keys) by {
      if keys != [] {
        assert keys[0] !in f[cur].child;
      }
    }
  }

  /** After the walk the root's child for the first segment is the node this call created. */
  lemma RegisterDynamicDetaches(nodes: seq<Node>, arr: seq<string>, h: Handle)
    requires ValidNodes(nodes) && |arr| >= 2 && arr[0] == ""
    ensures Follow(RegisterDynamic(nodes, arr, h).0, 0, [NodeName(arr[1])]) == Some(|nodes|)
  {
    var f := FirstStep(nodes, arr);
    var r := RegisterDynamic(nodes, arr, h);
    WalkExtends(f, arr, 2, |nodes|, h);
    assert Follow(f, 0, [NodeName(arr[1])]) == Some(|nodes|) by {
      FollowStep(f, 0, [NodeName(arr[1])]);
    }
    FollowExtends(f, r.0, 0, [NodeName(arr[1])]);
  }

  /** On success the whole pattern leads from the root to a node carrying the handle. */
  lemma RegisterDynamicReaches(nodes: seq<Node>, arr: seq<string>, h: Handle)
    requires ValidNodes(nodes) && |arr| >= 2 && arr[0] == ""
    ensures var r := RegisterDynamic(nodes, arr, h);
      r.1.None? ==> Reaches(r.0, 0, KeysOf(arr)[1..], h)
  {
    var f := FirstStep(nodes, arr);
    var cur := |nodes|;
    var r := RegisterDynamic(nodes, arr, h);
    WalkOutcome(f, arr, 2, cur, h);
    if r.1.None? {
      WalkExtends(f, arr, 2, cur, h);
      var keys := KeysOf(arr)[1..];
      assert keys[0] == NodeName(arr[1]) && keys[1..] == KeysOf(arr)[2..];
      assert Grows(f[0], r.0[0]);
      FollowStep(r.0, 0, keys);
    }
  }

  /** Below the root, a table that differs from another only at the root and in added nodes leads the same way. */
  lemma {:induction false} FollowBelowRoot(before: seq<Node>, after: seq<Node>, at: nat, keys: seq<string>)
    requires Linked(before) && 1 <= |before| <= |after| && after[1..|before|] == before[1..]
    requires before[0].step == 0 && at < |before| && before[at].step >= 1
    requires Follow(before, at, keys).Some?
    ensures Linked(after) ==> Follow(after, at, keys) == Follow(before, at, keys)
    decreases |keys|
  {
    assert after[at] == after[1..|before|][at - 1];
    if keys != [] && Linked(after) {
      assert EdgeOk(before, at, keys[0]);
      FollowBelowRoot(before, after, before[at].child[keys[0]], keys[1..]);
    }
  }

  /**
   * As written, the walk keeps every key path whose first key differs from the pattern's first
   * segment: it still leads to the same node, which keeps its handle.
   */
  lemma RegisterDynamicKeepsOthers(nodes: seq<Node>, arr: seq<string>, h: Handle, keys: seq<string>)
    requires ValidNodes(nodes) && |arr| >= 2 && arr[0] == ""
    requires Follow(nodes, 0, keys).Some?
    requires keys != [] && keys[0] != NodeName(arr[1])
    ensures var r, y := RegisterDynamic(nodes, arr, h).0, Follow(nodes, 0, keys).value;
      && Follow(r, 0, keys) == Some(y)
      && (nodes[y].handle.Some? ==> r[y].handle == nodes[y].handle)
  {
    var f := FirstStep(nodes, arr);
    var r := RegisterDynamic(nodes, arr, h).0;
    var y := Follow(nodes, 0, keys).value;
    FollowStep(nodes, 0, keys);
    var c := nodes[0].child[keys[0]];
    assert f[0].child[keys[0]] == c;
    FollowBelowRoot(nodes, f, c, keys[1..]);
    FollowStep(f, 0, keys);
    WalkExtends(f, arr, 2, |nodes|, h);
    FollowExtends(f, r, 0, keys);
    assert f[y] == f[1..|nodes|][y - 1];
    assert Grows(f[y], r[y]);
  }

  // ---------------------------------------------------------------------------------
  // Register as it is evidently meant to work: `addChild` from the root down

  /**
   * The reusing walk fails on a `*` segment anywhere but last, or when the pattern already leads to a
   * node carrying a handle (the duplicate `addChild` reports), and succeeds otherwise.
   */
  lemma ReusingOutcome(nodes: seq<Node>, arr: seq<string>, h: Handle)
    requires ValidNodes(nodes) && |arr| >= 2 && arr[0] == ""
    ensures RegisterDynamicReusing(nodes, arr, h).1
      == if WildcardInside(arr, 1) then Some(WildcardNotAtEnd(Join(arr)))
         else if Handled(nodes, 0, KeysOf(arr)[1..]) then Some(RouteExists(Join(arr)))
         else None
  {
    assert KeysOf(arr[..1]) == [""] == KeysOf(nodes[0].route);
    WalkOutcome(nodes, arr, 1, 0, h);
  }

  /** On success the whole pattern leads from the root to a node carrying the handle. */
  lemma ReusingReaches(nodes: seq<Node>, arr: seq<string>, h: Handle)
    requires ValidNodes(nodes) && |arr| >= 2 && arr[0] == ""
    ensures var r := RegisterDynamicReusing(nodes, arr, h);
      r.1.None? ==> Reaches(r.0, 0, KeysOf(arr)[1..], h)
  {
    assert KeysOf(arr[..1]) == [""] == KeysOf(nodes[0].route);
    WalkOutcome(nodes, arr, 1, 0, h);
  }

  /** Nothing registered before is lost: every pattern still leads to the same node, with the same handle. */
  lemma ReusingKeeps(nodes: seq<Node>, arr: seq<string>, h: Handle, keys: seq<string>)
    requires ValidNodes(nodes) && |arr| >= 2 && arr[0] == ""
    requires Follow(nodes, 0, keys).Some?
    ensures var r := RegisterDynamicReusing(nodes, arr, h);
      && Follow(r.0, 0, keys) == Follow(nodes, 0, keys)
      && (Handled(nodes, 0, keys) ==> r.0[Follow(nodes, 0, keys).value].handle == nodes[Follow(nodes, 0, keys).value].handle)
  {
    var r := RegisterDynamicReusing(nodes, arr, h);
    assert KeysOf(arr[..1]) == [""] == KeysOf(nodes[0].route);
    WalkExtends(nodes, arr, 1, 0, h);
    FollowExtends(nodes, r.0, 0, keys);
    assert Grows(nodes[Follow(nodes, 0, keys).value], r.0[Follow(nodes, 0, keys).value]);
  }

  // ---------------------------------------------------------------------------------
  // The two registrations "/a/:id" and then "/a/x"

  /** Node `j` has at most one child, under `key`, at index `j + 1`. */
  predicate ChainLink(n: Node, j: nat, key: Option<string>)
  {
    forall k :: k in n.child ==> key == Some(k) && n.child[k] == j + 1
  }

  /** The key of the segment at `k`, if the pattern has one there. */
  function ChainKey(arr: seq<string>, k: int): Option<string>
  {
    if 0 <= k < |arr| then Some(NodeName(arr[k])) else None
  }

  /** One step of a walk from the last node of the table, a node without children, when it succeeds. */
  lemma FreshStep(nodes: seq<Node>, arr: seq<string>, i: nat, cur: nat)
    requires WalkReady(nodes, arr, i, cur) && cur == |nodes| - 1 && nodes[cur].child == map[] && i < |arr|
    requires AddChild(nodes, cur, arr, i).err.None?
    ensures var c := AddChild(nodes, cur, arr, i);
      && c.node == Some(|nodes|) && |c.nodes| == |nodes| + 1
      && c.nodes[..cur] == nodes[..cur]
      && c.nodes[cur].child == map[NodeName(arr[i]) := |nodes|]
      && c.nodes[|nodes|].child == map[]
      && WalkReady(c.nodes, arr, i + 1, |nodes|)
  {
    AddChildReady(nodes, cur, arr, i);
  }

  /** Each node of `r` from `cur` on links only to the next one, under the key of its segment from `i` on. */
  predicate FreshChain(r: seq<Node>, cur: nat, arr: seq<string>, i: nat)
  {
    forall j :: cur <= j < |r| ==> ChainLink(r[j], j, ChainKey(arr, i + j - cur))
  }

  lemma ChainExtend(r: seq<Node>, cur: nat, arr: seq<string>, i: nat)
    requires cur < |r| && ChainLink(r[cur], cur, ChainKey(arr, i)) && FreshChain(r, cur + 1, arr, i + 1)
    ensures FreshChain(r, cur, arr, i)
  {
    forall j | cur < j < |r| ensures ChainLink(r[j], j, ChainKey(arr, i + j - cur)) {
      assert i + 1 + j - (cur + 1) == i + j - cur;
    }
  }

  /**
   * A walk that starts on the last node of the table, a node without children, builds a fresh chain:
   * the nodes before it are untouched and each node from it on links only to the next one, under the
   * key of its segment.
   */
  lemma {:induction false} FreshWalk(nodes: seq<Node>, arr: seq<string>, i: nat, cur: nat, h: Handle)
    requires WalkReady(nodes, arr, i, cur) && cur == |nodes| - 1 && nodes[cur].child == map[]
    ensures var r := Walk(nodes, arr, i, cur, h).0;
      r[..cur] == nodes[..cur] && FreshChain(r, cur, arr, i)
    decreases |arr| - i
  {
    if i == |arr| {
      WalkEnd(nodes, arr, cur, h);
      FreshEnd(nodes, cur, h);
    } else {
      WalkUnfold(nodes, arr, i, cur, h);
      var c := AddChild(nodes, cur, arr, i);
      if c.err.None? {
        FreshStep(nodes, arr, i, cur);
        var r := Walk(c.nodes, arr, i + 1, |nodes|, h).0;
        assert Walk(nodes, arr, i, cur, h).0 == r;
        FreshWalk(c.nodes, arr, i + 1, |nodes|, h);
        FreshLink(nodes, c.nodes, r, arr, i, cur);
      } else {
        assert Walk(nodes, arr, i, cur, h).0 == nodes;
        FreshAlone(nodes, cur, arr, i);
      }
    }
  }

  /** The last node, without children, is a chain by itself. */
  lemma FreshAlone(r: seq<Node>, cur: nat, arr: seq<string>, i: nat)
    requires cur == |r| - 1 && r[cur].child == map[]
    ensures FreshChain(r, cur, arr, i)
  {
  }

  /** Setting the handle on the last node, which has no children, keeps a one-node chain. */
  lemma FreshEnd(nodes: seq<Node>, cur: nat, h: Handle)
    requires cur == |nodes| - 1 && nodes[cur].child == map[]
    ensures var r := nodes[cur := nodes[cur].(handle := Some(h))];
      r[..cur] == nodes[..cur] && forall arr, i :: FreshChain(r, cur, arr, i)
  {
    var r := nodes[cur := nodes[cur].(handle := Some(h))];
    forall arr, i ensures FreshChain(r, cur, arr, i) {
      FreshAlone(r, cur, arr, i);
    }
  }

  /** The node a successful step hangs the rest of the chain from links only to it. */
  lemma FreshLink(nodes: seq<Node>, next: seq<Node>, r: seq<Node>, arr: seq<string>, i: nat, cur: nat)
    requires cur == |nodes| - 1 && |next| == |nodes| + 1 && i < |arr|
    requires next[..cur] == nodes[..cur] && next[cur].child == map[NodeName(arr[i]) := |nodes|]
    requires |nodes| <= |r| && r[..|nodes|] == next[..|nodes|] && FreshChain(r, |nodes|, arr, i + 1)
    ensures r[..cur] == nodes[..cur] && FreshChain(r, cur, arr, i)
  {
    assert r[cur] == r[..|nodes|][cur] == next[..|nodes|][cur] == next[cur];
    assert r[..cur] == r[..|nodes|][..cur];
    ChainExtend(r, cur, arr, i);
  }

  const First: seq<string> := ["", "a", ":id"]
  const Second: seq<string> := ["", "a", "x"]

  /** As written, the node that replaces the root's child for the first segment holds nothing but the new pattern's next level. */
  lemma RegisterDynamicFreshFirst(nodes: seq<Node>, arr: seq<string>, h: Handle)
    requires ValidNodes(nodes) && |arr| >= 2 && arr[0] == ""
    ensures var r := RegisterDynamic(nodes, arr, h).0;
      |nodes| < |r| && ChainLink(r[|nodes|], |nodes|, ChainKey(arr, 2))
  {
    var f := FirstStep(nodes, arr);
    FreshWalk(f, arr, 2, |nodes|, h);
  }

  /**
   * As written: registering "/a/x" after "/a/:id" succeeds, but the root's child "a" is replaced by a
   * fresh node, so following "a" then ":" from the root no longer reaches the handle of "/a/:id".
   */
  lemma FreshChainDropsSibling()
    ensures ValidNodes([Root])
    ensures var one := RegisterDynamic([Root], First, Handle(1));
      && one.1 == None && Reaches(one.0, 0, ["a", ":"], Handle(1))
      && var two := RegisterDynamic(one.0, Second, Handle(2));
      && two.1 == None && Reaches(two.0, 0, ["a", "x"], Handle(2))
      && Follow(two.0, 0, ["a", ":"]) == None
  {
    assert Empty().nodes == [Root];
    FirstKeys();
    SecondKeys();
    RegisterDynamicOutcome([Root], First, Handle(1));
    RegisterDynamicReaches([Root], First, Handle(1));
    var one := RegisterDynamic([Root], First, Handle(1)).0;
    RegisterDynamicOutcome(one, Second, Handle(2));
    RegisterDynamicReaches(one, Second, Handle(2));
    RegisterDynamicDetaches(one, Second, Handle(2));
    RegisterDynamicFreshFirst(one, Second, Handle(2));
    var two := RegisterDynamic(one, Second, Handle(2)).0;
    assert ["a", ":"][1..] == [":"] && ["a"][1..] == [];
    FollowStep(two, 0, ["a"]);
    FollowStep(two, 0, ["a", ":"]);
  }

  /** The keys of the two example patterns. */
  lemma FirstKeys()
    ensures KeysOf(First)[1..] == ["a", ":"] && KeysOf(First[..1]) == [""] && !WildcardInside(First, 1) && !WildcardInside(First, 2)
  {
    assert NodeName("a") == "a" && NodeName(":id") == ":";
  }

  lemma SecondKeys()
    ensures KeysOf(Second)[1..] == ["a", "x"] && !WildcardInside(Second, 1) && !WildcardInside(Second, 2)
  {
    assert NodeName("a") == "a" && NodeName("x") == "x";
  }

  /** As evidently meant, the first registration: "/a/:id" is reachable and "/a/x" is not yet handled. */
  lemma ReusingFirst()
    ensures ValidNodes([Root])
    ensures var one := RegisterDynamicReusing([Root], First, Handle(1));
      && one.1 == None && Reaches(one.0, 0, ["a", ":"], Handle(1))
      && !Handled(one.0, 0, ["a", "x"])
  {
    assert Empty().nodes == [Root];
    FirstKeys();
    ReusingOutcome([Root], First, Handle(1));
    ReusingReaches([Root], First, Handle(1));
    assert KeysOf(First[..1]) == [""];
    FreshWalk([Root], First, 1, 0, Handle(1));
    var one := RegisterDynamicReusing([Root], First, Handle(1)).0;
    if "a" in one[0].child {
      assert ChainLink(one[0], 0, Some("a"));
      assert ChainLink(one[1], 1, Some(":"));
      assert ["a", "x"][1..] == ["x"] && "x" !in one[1].child;
      FollowStep(one, 0, ["a", "x"]);
    }
  }

  /** As evidently meant: the same two registrations leave "/a/:id" reachable with its handle. */
  lemma ReusingKeepsSibling()
    ensures ValidNodes([Root])
    ensures var one := RegisterDynamicReusing([Root], First, Handle(1));
      && one.1 == None && Reaches(one.0, 0, ["a", ":"], Handle(1))
      && var two := RegisterDynamicReusing(one.0, Second, Handle(2));
      && two.1 == None && Reaches(two.0, 0, ["a", "x"], Handle(2))
      && Reaches(two.0, 0, ["a", ":"], Handle(1))
  {
    SecondKeys();
    ReusingFirst();
    var one := RegisterDynamicReusing([Root], First, Handle(1)).0;
    ReusingOutcome(one, Second, Handle(2));
    ReusingReaches(one, Second, Handle(2));
    ReusingKeeps(one, Second, Handle(2), ["a", ":"]);
  }
}

/**
 * The routing trie of router.go as values: path normalisation, segment classification,
 * the node table, and the specification functions that the `Router` class is proved
 * against (addChild, Register, the backtracking search of Match) together with Params.
 *
 * Trie nodes live in a table (`seq<Node>`); index 0 is the root and a node's `child`
 * map holds the indices of its children. Fully literal patterns live apart, in the
 * static map, exactly as in the source.
 */
module Trie {
  import opened Common
  import opened Paths

  const PathMatchParam: string := ":"
  const PathMatchVague: string := "*"

  predicate HasPrefix(s: string, prefix: string)
  {
    |prefix| <= |s| && s[..|prefix|] == prefix
  }

  /**
   * `PathName`: prepend the root, `path.Join`, lower-case. The test meant to map the root
   * to "" reads the named result before anything is assigned to it, so it never fires.
   */
  function PathName(paths: seq<string>): (r: string)
    ensures IsCanonical(r) && IsLower(r)
    ensures SegmentsOf(r) == LowerAll(JoinedSegments(paths))
  {
    var p := RootedJoin(paths);
    var unassigned := "";
    RootedJoinCanonical(paths);
    LowerCanonical(JoinedSegments(paths));
    RenderCanonical(LowerAll(JoinedSegments(paths)));
    if unassigned == "/" then "" else Lower(p)
  }

  /** The split form of a canonical path: an empty element for the root, then its segments. */
  lemma SplitCanonical(p: string)
    requires IsCanonical(p)
    ensures Split(p) == [""] + (if p == "/" then [""] else SegmentsOf(p))
  {
    assert p == "/" + p[1..];
  }

  /** The split form of a normalised path has at least two elements and starts with "". */
  lemma SplitPathName(paths: seq<string>)
    ensures |Split(PathName(paths))| >= 2
    ensures Split(PathName(paths))[0] == ""
  {
    SplitCanonical(PathName(paths));
  }

  /** `PathName` is idempotent. */
  lemma PathNameIdempotent(paths: seq<string>)
    ensures PathName([PathName(paths)]) == PathName(paths)
  {
    var r := PathName(paths);
    RootedJoinOfCanonical(r);
  }

  /** The root is not mapped to "": it normalises to "/". */
  lemma PathNameRoot()
    ensures PathName([]) == "/"
    ensures PathName([""]) == "/"
  {
    assert JoinedSegments([]) == [];
    assert Elements([""]) == [""] by { assert [""][1..] == []; }
    assert CleanFrom([], [""]) == [] by { assert [""][1..] == []; }
  }

  /** `NodeName`: the key of a segment in a child map. */
  function NodeName(name: string): (r: string)
    ensures r == name || r == PathMatchParam || r == PathMatchVague
    ensures r == PathMatchParam <==> HasPrefix(name, PathMatchParam)
    ensures r == PathMatchVague <==> HasPrefix(name, PathMatchVague)
    ensures HasPrefix(name, PathMatchParam) || HasPrefix(name, PathMatchVague) || r == name
  {
    if HasPrefix(name, PathMatchParam) then PathMatchParam
    else if HasPrefix(name, PathMatchVague) then PathMatchVague
    else name
  }

  /** Classifying a key again changes nothing. */
  lemma NodeNameIdempotent(name: string)
    ensures NodeName(NodeName(name)) == NodeName(name)
  {
  }

  /** The keys of a pattern prefix, position by position. */
  function KeysOf(route: seq<string>): (ks: seq<string>)
    ensures |ks| == |route|
    ensures forall j :: 0 <= j < |route| ==> ks[j] == NodeName(route[j])
  {
    seq(|route|, j requires 0 <= j < |route| => NodeName(route[j]))
  }

  lemma KeysOfPrefix(arr: seq<string>, i: nat)
    requires i < |arr|
    ensures KeysOf(arr[..i + 1]) == KeysOf(arr[..i]) + [NodeName(arr[i])]
  {
  }

  /** A node: its depth, key, children (by table index), the pattern prefix it stands for, its handle. */
  datatype Node = Node(step: nat, name: string, child: map<string, nat>, route: seq<string>, handle: Option<Handle>)

  /** The errors `Register` returns. */
  datatype RouteError = EmptyRoute | RouteExists(route: string) | WildcardNotAtEnd(route: string)

  /** The whole routing table: the trie's node table and the static index. */
  datatype Table = Table(nodes: seq<Node>, statics: map<string, Node>)

  /** `newRouter(name, arr, step)`. */
  function NewNode(name: string, arr: seq<string>, step: nat): (n: Node)
    requires step < |arr|
    ensures n.route == arr[..step + 1] && n.child == map[] && n.handle == None
  {
    Node(step, name, map[], arr[..step + 1], None)
  }

  /** `newStatic(arr, handle)`: a detached node for the whole pattern, carrying the handle. */
  function NewStatic(arr: seq<string>, h: Handle): (n: Node)
    requires |arr| >= 1
    ensures n.route == arr && n.step == |arr| - 1 && n.handle == Some(h)
  {
    var l := |arr| - 1;
    var n := NewNode(NodeName(arr[l]), arr, l);
    n.(handle := Some(h))
  }

  const Root: Node := Node(0, "", map[], [""], None)

  /** An edge from `i` under key `k` leads to a node of the table one level deeper, named `k`. */
  predicate EdgeOk(nodes: seq<Node>, i: nat, k: string)
    requires i < |nodes| && k in nodes[i].child
  {
    var c := nodes[i].child[k];
    c < |nodes| && nodes[c].step == nodes[i].step + 1 && nodes[c].name == k
  }

  /** Every edge of the table is well formed. */
  predicate Linked(nodes: seq<Node>)
  {
    forall i, k :: 0 <= i < |nodes| && k in nodes[i].child ==> EdgeOk(nodes, i, k)
  }

  /** An edge from `i` under key `k` extends the keys of the parent's pattern by `k`. */
  predicate KeyOk(nodes: seq<Node>, i: nat, k: string)
    requires i < |nodes| && k in nodes[i].child
  {
    var c := nodes[i].child[k];
    c < |nodes| && KeysOf(nodes[c].route) == KeysOf(nodes[i].route) + [k]
  }

  predicate Labelled(nodes: seq<Node>)
  {
    forall i, k :: 0 <= i < |nodes| && k in nodes[i].child ==> KeyOk(nodes, i, k)
  }

  /** What the search needs of the table: a root at depth 0 and well-formed edges. */
  predicate Searchable(nodes: seq<Node>)
  {
    |nodes| >= 1 && nodes[0].step == 0 && Linked(nodes)
  }

  /** The invariant of the node table. */
  predicate ValidNodes(nodes: seq<Node>)
  {
    && Searchable(nodes) && nodes[0].route == [""]
    && (forall i :: 0 <= i < |nodes| ==> |nodes[i].route| == nodes[i].step + 1)
    && Labelled(nodes)
  }

  /** A child in a valid table, with everything its edge promises. */
  lemma ChildOk(nodes: seq<Node>, i: nat, k: string)
    requires ValidNodes(nodes) && i < |nodes| && k in nodes[i].child
    ensures EdgeOk(nodes, i, k) && KeyOk(nodes, i, k)
  {
  }

  /** The node reached from `at` by following the child keys `keys`, if every edge exists. */
  function Follow(nodes: seq<Node>, at: nat, keys: seq<string>): (r: Option<nat>)
    requires Linked(nodes) && at < |nodes|
    ensures r.Some? ==> r.value < |nodes| && nodes[r.value].step == nodes[at].step + |keys|
    ensures r.Some? && keys != [] ==> nodes[r.value].name == keys[|keys| - 1]
    decreases |keys|
  {
    if keys == [] then Some(at)
    else if keys[0] in nodes[at].child then
      assert EdgeOk(nodes, at, keys[0]);
      Follow(nodes, nodes[at].child[keys[0]], keys[1..])
    else None
  }

  /** The invariant of the whole table: static entries are whole literal patterns carrying a handle. */
  predicate Valid(t: Table)
  {
    && ValidNodes(t.nodes)
    && (forall key :: key in t.statics ==>
          t.statics[key].route == Split(key) && t.statics[key].step == |Split(key)| - 1
          && t.statics[key].handle.Some? && ':' !in key && '*' !in key)
  }

  /** `NewRouter()`. */
  function Empty(): (t: Table)
    ensures Valid(t) && t.statics == map[] && |t.nodes| == 1 && t.nodes[0].child == map[]
  {
    Table([Root], map[])
  }

  /** What `addChild` returns: the updated table, the node (nil on the wildcard error) and the error. */
  datatype ChildResult = ChildResult(nodes: seq<Node>, node: Option<nat>, err: Option<RouteError>)

  /** `addChild` on node `at` for segment `arr[step]`. */
  function AddChild(nodes: seq<Node>, at: nat, arr: seq<string>, step: nat): ChildResult
    requires ValidNodes(nodes) && at < |nodes| && step < |arr|
  {
    var name := NodeName(arr[step]);
    var index := |arr| - 1;
    if name == PathMatchVague && index != step then
      ChildResult(nodes, None, Some(WildcardNotAtEnd(Join(arr))))
    else if name in nodes[at].child && nodes[nodes[at].child[name]].handle.Some? && index == step then
      ChildResult(nodes, Some(nodes[at].child[name]), Some(RouteExists(Join(arr))))
    else if name in nodes[at].child then
      ChildResult(nodes, Some(nodes[at].child[name]), None)
    else
      var idx := |nodes|;
      ChildResult(nodes[at := nodes[at].(child := nodes[at].child[name := idx])] + [NewNode(name, arr, step)], Some(idx), None)
  }

  /** Where a walk over `arr` may stand before handling `arr[i]`: at a node for `arr[..i]`. */
  predicate WalkReady(nodes: seq<Node>, arr: seq<string>, i: nat, cur: nat)
  {
    && ValidNodes(nodes) && cur < |nodes| && 1 <= i <= |arr|
    && nodes[cur].step == i - 1 && KeysOf(nodes[cur].route) == KeysOf(arr[..i])
  }

  /** `addChild` keeps the table valid and returns a node for `arr[..step + 1]`. */
  lemma AddChildReady(nodes: seq<Node>, at: nat, arr: seq<string>, step: nat)
    requires WalkReady(nodes, arr, step, at) && step < |arr|
    ensures var r := AddChild(nodes, at, arr, step);
      ValidNodes(r.nodes)
      && (r.err.None? ==> r.node.Some? && WalkReady(r.nodes, arr, step + 1, r.node.value))
  {
    var r := AddChild(nodes, at, arr, step);
    var name := NodeName(arr[step]);
    KeysOfPrefix(arr, step);
    if r.err.None? && name !in nodes[at].child {
      var idx := |nodes|;
      var parent := nodes[at].(child := nodes[at].child[name := idx]);
      var n := NewNode(name, arr, step);
      assert r.nodes == nodes[at := parent] + [n];
      forall i, k | 0 <= i < |r.nodes| && k in r.nodes[i].child
        ensures EdgeOk(r.nodes, i, k) && KeyOk(r.nodes, i, k)
      {
        if i == at && k == name {
          assert r.nodes[idx] == n;
        } else {
          ChildOk(nodes, i, k);
        }
      }
    }
  }

  /** Setting a node's handle leaves the table valid. */
  lemma SetHandleValid(nodes: seq<Node>, cur: nat, h: Handle)
    requires ValidNodes(nodes) && cur < |nodes|
    ensures ValidNodes(nodes[cur := nodes[cur].(handle := Some(h))])
  {
    var r := nodes[cur := nodes[cur].(handle := Some(h))];
    forall i, k | 0 <= i < |r| && k in r[i].child
      ensures EdgeOk(r, i, k) && KeyOk(r, i, k)
    {
      ChildOk(nodes, i, k);
    }
  }

  /** The rest of `Register`'s loop, from step `i`, standing at node `cur`; afterwards the handle is set. */
  function Walk(nodes: seq<Node>, arr: seq<string>, i: nat, cur: nat, h: Handle): (r: (seq<Node>, Option<RouteError>))
    requires WalkReady(nodes, arr, i, cur)
    ensures ValidNodes(r.0) && |r.0| >= |nodes|
    decreases |arr| - i
  {
    if i == |arr| then
      SetHandleValid(nodes, cur, h);
      (nodes[cur := nodes[cur].(handle := Some(h))], None)
    else
      AddChildReady(nodes, cur, arr, i);
      var c := AddChild(nodes, cur, arr, i);
      if c.err.Some? then (c.nodes, c.err)
      else Walk(c.nodes, arr, i + 1, c.node.value, h)
  }

  /** The node `Register` creates at depth 1, and the table after it overwrites the root's child. */
  function FirstStep(nodes: seq<Node>, arr: seq<string>): (r: seq<Node>)
    requires ValidNodes(nodes) && |arr| >= 2 && arr[0] == ""
    ensures WalkReady(r, arr, 2, |nodes|)
    ensures |r| == |nodes| + 1 && r[|nodes|].child == map[]
    ensures r[0].child == nodes[0].child[NodeName(arr[1]) := |nodes|]
    ensures r[1..|nodes|] == nodes[1..]
  {
    var idx := |nodes|;
    var first := NewNode(NodeName(arr[1]), arr, 1);
    var r := nodes[0 := nodes[0].(child := nodes[0].child[first.name := idx])] + [first];
    KeysOfPrefix(arr, 1);
    assert KeysOf(arr[..1]) == [""] == KeysOf(nodes[0].route);
    forall i, k | 0 <= i < |r| && k in r[i].child ensures EdgeOk(r, i, k) && KeyOk(r, i, k) {
      if i == 0 && k == first.name {
      } else {
        ChildOk(nodes, i, k);
      }
    }
    r
  }

  /** `Register` for a pattern with a `:` or `*` in it, on its split form. */
  function RegisterDynamic(nodes: seq<Node>, arr: seq<string>, h: Handle): (r: (seq<Node>, Option<RouteError>))
    requires ValidNodes(nodes) && |arr| >= 2 && arr[0] == ""
    ensures ValidNodes(r.0)
  {
    Walk(FirstStep(nodes, arr), arr, 2, |nodes|, h)
  }

  /** Whether a normalised pattern goes to the static index. */
  predicate IsStatic(key: string)
  {
    ':' !in key && '*' !in key
  }

  /**
   * `Register` for a pattern with a `:` or `*` in it, as it is evidently meant to work: every depth,
   * the first included, goes through `addChild`, so existing nodes are reused and an existing handle
   * is reported instead of being silently replaced.
   */
  function RegisterDynamicReusing(nodes: seq<Node>, arr: seq<string>, h: Handle): (r: (seq<Node>, Option<RouteError>))
    requires ValidNodes(nodes) && |arr| >= 2 && arr[0] == ""
    ensures ValidNodes(r.0)
  {
    assert KeysOf(arr[..1]) == [""] == KeysOf(nodes[0].route);
    Walk(nodes, arr, 1, 0, h)
  }

  /**
   * `Register(route, handle)` as written: a literal pattern goes to the static index, any other one is
   * walked into the trie by `RegisterDynamic`, which replaces the root's child at depth 1.
   */
  function Register(t: Table, route: string, h: Handle): (r: (Table, Option<RouteError>))
    requires Valid(t)
    ensures Valid(r.0)
  {
    if route == "" then (t, Some(EmptyRoute))
    else
      var key := PathName([route]);
      var arr := Split(key);
      SplitPathName([route]);
      if IsStatic(key) then
        if key in t.statics then (t, Some(RouteExists(key)))
        else (t.(statics := t.statics[key := NewStatic(arr, h)]), None)
      else
        var d := RegisterDynamic(t.nodes, arr, h);
        (t.(nodes := d.0), d.1)
  }

  /** `Register` with the corrected walk `RegisterDynamicReusing` for patterns with a `:` or `*` in them. */
  function RegisterReusing(t: Table, route: string, h: Handle): (r: (Table, Option<RouteError>))
    requires Valid(t)
    ensures Valid(r.0)
    ensures route == "" || IsStatic(PathName([route])) ==> r == Register(t, route, h)
  {
    if route == "" || IsStatic(PathName([route])) then Register(t, route, h)
    else
      var arr := Split(PathName([route]));
      SplitPathName([route]);
      var d := RegisterDynamicReusing(t.nodes, arr, h);
      (t.(nodes := d.0), d.1)
  }

  // ---------------------------------------------------------------------------------
  // Match: the backtracking search over the trie

  /** Node `x` may be selected while matching the split path `arr`: it is in the table, at a depth the path has. */
  predicate Selectable(nodes: seq<Node>, arr: seq<string>, x: nat)
  {
    Searchable(nodes) && x < |nodes| && |arr| >= 2 && 1 <= nodes[x].step <= |arr| - 1
  }

  /** A selected node ends its branch when it is a wildcard or as deep as the path. */
  predicate Terminal(n: Node, arr: seq<string>)
  {
    n.name == PathMatchVague || n.step == |arr| - 1
  }

  /** The child of `x` under key `k`, as a one-element list, or nothing. */
  function ChildList(nodes: seq<Node>, x: nat, k: string, arr: seq<string>): (r: seq<nat>)
    requires Selectable(nodes, arr, x) && !Terminal(nodes[x], arr)
    ensures |r| <= 1
    ensures forall y :: y in r ==> Selectable(nodes, arr, y) && nodes[y].step == nodes[x].step + 1
    ensures r == if k in nodes[x].child then [nodes[x].child[k]] else []
  {
    if k in nodes[x].child then
      assert EdgeOk(nodes, x, k);
      [nodes[x].child[k]]
    else []
  }

  /**
   * The candidates found below selected node `x`, in the order Match reports them: the node itself
   * when it ends its branch, otherwise everything under the literal child for the next segment,
   * then under the `:` child, then under the `*` child.
   */
  function Search(nodes: seq<Node>, x: nat, arr: seq<string>): seq<Node>
    requires Selectable(nodes, arr, x)
    decreases |arr| - nodes[x].step
  {
    var n := nodes[x];
    if Terminal(n, arr) then (if n.handle.Some? then [n] else [])
    else
      SearchAll(nodes, ChildList(nodes, x, arr[n.step + 1], arr), arr, n.step + 1)
      + SearchAll(nodes, ChildList(nodes, x, PathMatchParam, arr), arr, n.step + 1)
      + SearchAll(nodes, ChildList(nodes, x, PathMatchVague, arr), arr, n.step + 1)
  }

  /** The candidates below each of `xs` (all at depth `d`), in list order. */
  function SearchAll(nodes: seq<Node>, xs: seq<nat>, arr: seq<string>, d: nat): seq<Node>
    requires forall y :: y in xs ==> Selectable(nodes, arr, y) && nodes[y].step == d
    decreases |arr| - d + 1, |xs|
  {
    if xs == [] then [] else Search(nodes, xs[0], arr) + SearchAll(nodes, xs[1..], arr, d)
  }

  /** How many turns of Match's loop the node `x` accounts for. */
  function Work(nodes: seq<Node>, x: nat, arr: seq<string>): (w: nat)
    requires Selectable(nodes, arr, x)
    ensures w >= 1
    decreases |arr| - nodes[x].step
  {
    var n := nodes[x];
    if Terminal(n, arr) then 1
    else
      1 + WorkAll(nodes, ChildList(nodes, x, arr[n.step + 1], arr), arr, n.step + 1)
      + WorkAll(nodes, ChildList(nodes, x, PathMatchParam, arr), arr, n.step + 1)
      + WorkAll(nodes, ChildList(nodes, x, PathMatchVague, arr), arr, n.step + 1)
  }

  function WorkAll(nodes: seq<Node>, xs: seq<nat>, arr: seq<string>, d: nat): nat
    requires forall y :: y in xs ==> Selectable(nodes, arr, y) && nodes[y].step == d
    decreases |arr| - d + 1, |xs|
  {
    if xs == [] then 0 else Work(nodes, xs[0], arr) + WorkAll(nodes, xs[1..], arr, d)
  }

  /** A stack of alternatives; its top is its last element. */
  predicate StackOk(nodes: seq<Node>, arr: seq<string>, stack: seq<nat>)
  {
    forall y :: y in stack ==> Selectable(nodes, arr, y)
  }

  /** The candidates still to come from a stack of alternatives, top first. */
  function SearchStack(nodes: seq<Node>, stack: seq<nat>, arr: seq<string>): seq<Node>
    requires StackOk(nodes, arr, stack)
  {
    if stack == [] then []
    else Search(nodes, stack[|stack| - 1], arr) + SearchStack(nodes, stack[..|stack| - 1], arr)
  }

  function WorkStack(nodes: seq<Node>, stack: seq<nat>, arr: seq<string>): nat
    requires StackOk(nodes, arr, stack)
  {
    if stack == [] then 0
    else Work(nodes, stack[|stack| - 1], arr) + WorkStack(nodes, stack[..|stack| - 1], arr)
  }

  /** The node Match's loop has selected, if any, is one it may go on from. */
  predicate SelectOk(nodes: seq<Node>, arr: seq<string>, select: Option<nat>)
  {
    select.Some? ==> Selectable(nodes, arr, select.value)
  }

  /** The candidates still to come from the selected node. */
  function Pending(nodes: seq<Node>, select: Option<nat>, arr: seq<string>): seq<Node>
    requires SelectOk(nodes, arr, select)
  {
    if select.Some? then Search(nodes, select.value, arr) else []
  }

  function PendingWork(nodes: seq<Node>, select: Option<nat>, arr: seq<string>): nat
    requires SelectOk(nodes, arr, select)
  {
    if select.Some? then Work(nodes, select.value, arr) else 0
  }

  /** The keys Match looks up at the root, in the order it pushes what it finds. */
  function RootKeys(arr: seq<string>): seq<string>
    requires |arr| >= 2
  {
    [PathMatchVague, PathMatchParam, arr[1]]
  }

  /** The root's children under `keys`, in order, skipping missing ones. */
  function Picks(nodes: seq<Node>, arr: seq<string>, keys: seq<string>): (stack: seq<nat>)
    requires Searchable(nodes) && |arr| >= 2
    ensures StackOk(nodes, arr, stack)
  {
    if keys == [] then []
    else
      var k := keys[|keys| - 1];
      Picks(nodes, arr, keys[..|keys| - 1])
      + (if k in nodes[0].child then assert EdgeOk(nodes, 0, k); [nodes[0].child[k]] else [])
  }

  /** The stack Match starts from: the root's `*` child, its `:` child, then its child for the first segment. */
  function RootStack(nodes: seq<Node>, arr: seq<string>): (stack: seq<nat>)
    requires Searchable(nodes) && |arr| >= 2
    ensures StackOk(nodes, arr, stack)
  {
    Picks(nodes, arr, RootKeys(arr))
  }

  /** `Match(paths...)`: the static entry alone if there is one, otherwise the trie's candidates in search order. */
  function Match(t: Table, paths: seq<string>): seq<Node>
    requires Valid(t)
  {
    var route := PathName(paths);
    if route in t.statics then [t.statics[route]]
    else
      var arr := Split(route);
      SplitPathName(paths);
      SearchStack(t.nodes, RootStack(t.nodes, arr), arr)
  }
}

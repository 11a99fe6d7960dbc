/**
 * `Router.Params`: the values a matched node's pattern binds in a request path. A `:name`
 * segment binds the path segment at its position; a `*name` segment binds the rest of the path
 * from its position on (under `*` when the name is empty). Later positions overwrite earlier ones.
 */
module RouteParams {
  import opened Common
  import opened Paths
  import opened Trie

  /** The parameter name a pattern segment binds, if it binds one. */
  function ParamKey(s: string): (k: Option<string>)
    ensures k.Some? <==> HasPrefix(s, PathMatchParam) || HasPrefix(s, PathMatchVague)
  {
    if HasPrefix(s, PathMatchParam) then Some(s[1..])
    else if HasPrefix(s, PathMatchVague) then Some(if s[1..] == "" then PathMatchVague else s[1..])
    else None
  }

  /** The value bound by pattern segment `s` standing at position `i` of the split path `arr`. */
  function ParamValue(s: string, arr: seq<string>, i: nat): string
    requires i < |arr|
  {
    if HasPrefix(s, PathMatchParam) then arr[i] else Join(arr[i..])
  }

  /** The bindings of the first `m` positions, left to right. */
  function ParamsUpTo(route: seq<string>, arr: seq<string>, m: nat): map<string, string>
    requires m <= |route| && m <= |arr|
  {
    if m == 0 then map[]
    else
      var r := ParamsUpTo(route, arr, m - 1);
      var s := route[m - 1];
      match ParamKey(s)
      case None => r
      case Some(k) => r[k := ParamValue(s, arr, m - 1)]
  }

  function Min(a: nat, b: nat): nat
  {
    if a < b then a else b
  }

  /** `Params(paths...)` on node `n`: the positions both the pattern and the normalised path have. */
  function Params(n: Node, paths: seq<string>): map<string, string>
  {
    var arr := Split(PathName(paths));
    ParamsUpTo(n.route, arr, Min(|arr|, |n.route|))
  }

  /** A name is bound exactly when some position before `m` is a `:` or `*` segment carrying that name. */
  lemma {:induction false} ParamsKeys(route: seq<string>, arr: seq<string>, m: nat, k: string)
    requires m <= |route| && m <= |arr|
    ensures k in ParamsUpTo(route, arr, m) <==> exists i :: 0 <= i < m && ParamKey(route[i]) == Some(k)
  {
    if m > 0 {
      ParamsKeys(route, arr, m - 1, k);
      if k in ParamsUpTo(route, arr, m) && k !in ParamsUpTo(route, arr, m - 1) {
        assert ParamKey(route[m - 1]) == Some(k);
      }
      if exists i :: 0 <= i < m && ParamKey(route[i]) == Some(k) {
        var i :| 0 <= i < m && ParamKey(route[i]) == Some(k);
        if i < m - 1 {
          assert k in ParamsUpTo(route, arr, m - 1);
        }
      }
    }
  }

  /** A bound name carries the value of the last position before `m` that binds it. */
  lemma {:induction false} ParamsValue(route: seq<string>, arr: seq<string>, m: nat, i: nat)
    requires m <= |route| && m <= |arr| && i < m && ParamKey(route[i]).Some?
    requires forall j :: i < j < m ==> ParamKey(route[j]) != ParamKey(route[i])
    ensures var k := ParamKey(route[i]).value;
      k in ParamsUpTo(route, arr, m) && ParamsUpTo(route, arr, m)[k] == ParamValue(route[i], arr, i)
  {
    if i < m - 1 {
      ParamsValue(route, arr, m - 1, i);
    }
  }

  /** A pattern with no `:` or `*` segment binds nothing. */
  lemma ParamsLiteral(route: seq<string>, arr: seq<string>, m: nat)
    requires m <= |route| && m <= |arr|
    requires forall i :: 0 <= i < m ==> ParamKey(route[i]).None?
    ensures ParamsUpTo(route, arr, m) == map[]
  {
    forall k | k in ParamsUpTo(route, arr, m) ensures false {
      ParamsKeys(route, arr, m, k);
    }
  }

  /** A root-level `:name` pattern binds its name to the empty segment of the root path. */
  lemma RootPathBinding(n: Node, name: string)
    requires n.route == ["", PathMatchParam + name]
    ensures Params(n, []) == map[name := ""]
  {
    PathNameRoot();
    assert "/"[1..] == "";
    assert Split("/") == ["", ""];
    assert (PathMatchParam + name)[1..] == name;
    assert ParamsUpTo(n.route, ["", ""], 1) == map[];
  }
}

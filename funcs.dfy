/**
 * The package-level helpers of func.go: the `Clean` normaliser, `RouteName`, the string
 * post-processing that `FuncName` applies to a runtime function name, and `IsExported`.
 */
module Funcs {
  import opened Paths
  import opened Trie

  /**
   * `Clean(paths...)`: prepend the root, `path.Join`, lower-case. As in `PathName`, the test
   * meant to map the root to "" reads the named result before it is assigned, so it never fires.
   */
  function Clean(paths: seq<string>): (r: string)
    ensures IsCanonical(r) && IsLower(r)
    ensures SegmentsOf(r) == LowerAll(JoinedSegments(paths))
  {
    var p := PathJoin(["/"] + paths);
    var unassigned := "";
    RootedJoinIsPathJoin(paths);
    RootedJoinCanonical(paths);
    LowerCanonical(JoinedSegments(paths));
    RenderCanonical(LowerAll(JoinedSegments(paths)));
    if unassigned == "/" then "" else Lower(p)
  }

  /** The two normalisers of the package agree on every input. */
  lemma CleanIsPathName(paths: seq<string>)
    ensures Clean(paths) == PathName(paths)
  {
    RootedJoinIsPathJoin(paths);
  }

  /** `Clean` is idempotent. */
  lemma CleanIdempotent(paths: seq<string>)
    ensures Clean([Clean(paths)]) == Clean(paths)
  {
    CleanIsPathName(paths);
    CleanIsPathName([Clean(paths)]);
    PathNameIdempotent(paths);
  }

  /** The root normalises to "/" and not to "": the branch meant for it is dead. */
  lemma CleanRoot()
    ensures Clean([]) == "/" && Clean(["/"]) == "/"
  {
    CleanIsPathName([]);
    CleanIsPathName(["/"]);
    PathNameRoot();
    RootedJoinOfCanonical("/");
    assert PathName(["/"]) == Lower("/");
  }

  /** `RouteName`: ":" or "*" for a segment with that prefix, the segment itself otherwise. */
  function RouteName(name: string): (r: string)
    ensures r == PathMatchParam <==> HasPrefix(name, PathMatchParam)
    ensures r == PathMatchVague <==> HasPrefix(name, PathMatchVague)
    ensures !HasPrefix(name, PathMatchParam) && !HasPrefix(name, PathMatchVague) ==> r == name
  {
    if HasPrefix(name, PathMatchParam) then PathMatchParam
    else if HasPrefix(name, PathMatchVague) then PathMatchVague
    else name
  }

  /** `RouteName` classifies segments exactly as the trie's `NodeName` does. */
  lemma RouteNameIsNodeName(name: string)
    ensures RouteName(name) == NodeName(name)
  {
  }

  /** `strings.LastIndex(s, string(c))`: the last position holding `c`, or -1. */
  function LastIndexOf(s: string, c: char): (i: int)
    ensures -1 <= i < |s|
    ensures i >= 0 ==> s[i] == c
    ensures forall j :: i < j < |s| ==> s[j] != c
  {
    if s == [] then -1
    else if s[|s| - 1] == c then |s| - 1
    else LastIndexOf(s[..|s| - 1], c)
  }

  /** `strings.HasSuffix`. */
  predicate HasSuffix(s: string, suffix: string)
  {
    |suffix| <= |s| && s[|s| - |suffix|..] == suffix
  }

  /** `strings.TrimSuffix`: drops one trailing `suffix`, if present. */
  function TrimSuffix(s: string, suffix: string): (r: string)
    ensures HasSuffix(s, suffix) ==> r + suffix == s
    ensures !HasSuffix(s, suffix) ==> r == s
  {
    if HasSuffix(s, suffix) then s[..|s| - |suffix|] else s
  }

  /** The suffix a Go method value's runtime name carries. */
  const MethodValueSuffix: string := "-fm"

  /**
   * What `FuncName` does with the runtime's name for a function: keep what follows the
   * last ".", then drop one trailing "-fm".
   */
  function FuncNameTail(fname: string): (r: string)
    ensures '.' !in r
  {
    var tail :=
      if fname != "" then
        var last := LastIndexOf(fname, '.');
        if last >= 0 then fname[last + 1..] else fname
      else fname;
    NothingAfterLast(fname, '.');
    TrimSuffixKeeps(tail, MethodValueSuffix, '.');
    TrimSuffix(tail, MethodValueSuffix)
  }

  lemma NothingAfterLast(s: string, c: char)
    ensures LastIndexOf(s, c) >= 0 ==> c !in s[LastIndexOf(s, c) + 1..]
    ensures LastIndexOf(s, c) < 0 ==> c !in s
  {
    var last := LastIndexOf(s, c);
    var after := s[last + 1..];
    forall k | 0 <= k < |after| ensures after[k] != c {
      assert after[k] == s[last + 1 + k];
    }
  }

  lemma TrimSuffixKeeps(s: string, suffix: string, c: char)
    requires c !in s
    ensures c !in TrimSuffix(s, suffix)
  {
    var r := TrimSuffix(s, suffix);
    forall k | 0 <= k < |r| ensures r[k] != c {
      assert r[k] == s[k];
    }
  }

  /** For a package-qualified name, the short name is the part after the qualifier. */
  lemma FuncNameQualified(qualifier: string, name: string)
    requires '.' !in name
    ensures FuncNameTail(qualifier + "." + name) == TrimSuffix(name, MethodValueSuffix)
  {
    var s := qualifier + "." + name;
    var last := LastIndexOf(s, '.');
    assert s[|qualifier|] == '.';
    assert last == |qualifier| by {
      forall j | |qualifier| < j < |s| ensures s[j] != '.' {
        assert s[j] == name[j - |qualifier| - 1];
      }
    }
    assert s[last + 1..] == name;
  }

  /** A method value `pkg.(*T).Name-fm` yields just `Name`. */
  lemma FuncNameMethodValue(qualifier: string, name: string)
    requires '.' !in name
    ensures FuncNameTail(qualifier + "." + name + MethodValueSuffix) == name
  {
    assert qualifier + "." + name + MethodValueSuffix == qualifier + "." + (name + MethodValueSuffix);
    FuncNameQualified(qualifier, name + MethodValueSuffix);
    var s := name + MethodValueSuffix;
    assert s[|s| - |MethodValueSuffix|..] == MethodValueSuffix;
    assert s[..|s| - |MethodValueSuffix|] == name;
  }

  /** A name without qualifier and without "-fm" is kept as it is. */
  lemma FuncNamePlain(name: string)
    requires '.' !in name && !HasSuffix(name, MethodValueSuffix)
    ensures FuncNameTail(name) == name
  {
    if name != "" {
      NothingAfterLast(name, '.');
      assert LastIndexOf(name, '.') < 0;
    }
  }

  /** `unicode.IsUpper`, ASCII letters only. */
  predicate IsUpperChar(c: char)
  {
    'A' <= c <= 'Z'
  }

  /**
   * `IsExported`: the first character is upper-case. The empty name decodes to the error
   * rune, which is not upper-case.
   */
  function IsExported(name: string): (r: bool)
    ensures r ==> name != []
  {
    name != [] && IsUpperChar(name[0])
  }

  /** Lower-casing a name always makes it unexported. */
  lemma LowerNotExported(name: string)
    ensures !IsExported(Lower(name))
  {
  }

  /** Exporting is decided by the first character alone. */
  lemma ExportedByFirst(name: string, rest: string)
    requires name != []
    ensures IsExported([name[0]] + rest) == IsExported(name)
  {
  }
}

/**
 * options.go and service.go. `Options` holds the route table shared by every service and the
 * optional `Format` and `Filter` hooks. A `Service` holds what is registered under one path
 * prefix: plain functions in `methods` (the source's `method` map), and handler structs in
 * `nodes`, each with its own table of methods.
 *
 * Reflection values (functions, receivers) are opaque `Handle`s. What reflection would report
 * (a function's runtime name, a struct type's name and method set) is passed in as parameters.
 * `Options.Clean` and the other specification functions take the hooks they consult as
 * arguments (`CleanWith(o.format, ...)`), so that they do not depend on the heap.
 */
module Services {
  import opened Common
  import opened Paths
  import opened Trie
  import Funcs

  /** The errors the registration methods return. */
  datatype ServiceError =
    | NameEmpty
    | FilterRejected(name: string)
    | MethodExists(name: string)
    | StructExists(name: string)

  /** One method of a struct type as reflection lists it; `pkgPath` is empty for exported methods. */
  datatype MethodInfo = MethodInfo(name: string, pkgPath: string, fn: Handle)

  /** A registered handler struct: its formatted name, its receiver and its method table. */
  datatype StructNode = StructNode(name: string, receiver: Handle, methods: map<string, Handle>)

  /** What `Service.Match` returns: the receiver (struct methods only), the function, and success. */
  datatype MatchResult = MatchResult(proto: Option<Handle>, fn: Option<Handle>, ok: bool)

  /** The `Filter` hook: the service, the receiver (none for plain functions) and the function. */
  type Filter = (Service, Option<Handle>, Handle) -> bool

  /** Whether `filter` (when set) lets `fn` be registered on `s`. */
  predicate Admits(filter: Option<Filter>, s: Service, receiver: Option<Handle>, fn: Handle)
  {
    filter.None? || filter.value(s, receiver, fn)
  }

  /**
   * `Options.Clean` for an `Options` whose `Format` hook is `format`: join below the root and
   * clean, then apply the hook (or lower-case when it is not set); exactly "/" becomes "".
   * Never "/"; with the default folding the result is "" or a lower-case canonical path below
   * the root.
   */
  function CleanWith(format: Option<string -> string>, paths: seq<string>): (r: string)
    ensures r != "/"
    ensures format == None ==> r == "" || (IsSubPath(r) && IsLower(r))
  {
    var p := PathJoin(["/"] + paths);
    var folded := match format case Some(f) => f(p) case None => Lower(p);
    assert format == None ==> folded == Funcs.Clean(paths);
    if folded == "/" then "" else folded
  }

  class Options {
    var route: map<string, Service>
    var format: Option<string -> string>
    var filter: Option<Filter>

    /** `NewOptions`: an empty route table and neither hook set. */
    constructor ()
      ensures route == map[] && format == None && filter == None
    {
      route := map[];
      format := None;
      filter := None;
    }

    /** `addRoutePath`: map the join of the service's prefix and `s` to the service. */
    method AddRoutePath(r: Service, s: seq<string>)
      modifies this`route
      ensures route == old(route)[PathJoin([r.prefix] + s) := r]
    {
      var k := PathJoin([r.prefix] + s);
      route := route[k := r];
    }
  }

  /** With the default folding, `Options.Clean` is the package `Clean` with the root mapped to "". */
  lemma CleanDefault(paths: seq<string>)
    ensures CleanWith(None, paths) == (if Funcs.Clean(paths) == "/" then "" else Funcs.Clean(paths))
  {
  }

  /** With the default folding, `Options.Clean` is idempotent. */
  lemma CleanDefaultIdempotent(paths: seq<string>)
    ensures CleanWith(None, [CleanWith(None, paths)]) == CleanWith(None, paths)
  {
    var r := CleanWith(None, paths);
    CleanDefault(paths);
    CleanDefault([r]);
    if r == "" {
      CleanRootOnly([""]) by {
        assert Elements([""]) == [""] by { assert [""][1..] == []; }
        assert CleanFrom([], [""]) == [] by { assert [""][1..] == []; }
      }
    } else {
      Funcs.CleanIdempotent(paths);
    }
  }

  /** Paths with no segment left after cleaning come out as the root, which `Options.Clean` maps to "". */
  lemma CleanRootOnly(paths: seq<string>)
    requires JoinedSegments(paths) == []
    ensures Funcs.Clean(paths) == "/" && CleanWith(None, paths) == ""
  {
    CleanDefault(paths);
  }

  /** No argument, "", "." and "/" all clean to "" with the default folding. */
  lemma CleanDefaultRoot()
    ensures CleanWith(None, []) == "" && CleanWith(None, [""]) == ""
    ensures CleanWith(None, ["."]) == "" && CleanWith(None, ["/"]) == ""
  {
    assert JoinedSegments([]) == [];
    CleanRootOnly([]);
    assert JoinedSegments([""]) == [] by {
      assert [""][1..] == [];
      assert Elements([""]) == [""];
    }
    CleanRootOnly([""]);
    assert JoinedSegments(["."]) == [] by {
      assert ["."][1..] == [];
      assert Elements(["."]) == ["."] by { SplitSegment("."); }
    }
    CleanRootOnly(["."]);
    assert JoinedSegments(["/"]) == [] by {
      assert ["/"][1..] == [];
      assert Split("/") == ["", ""] by { assert "/"[1..] == ""; }
      assert Elements(["/"]) == ["", ""];
      assert ["", ""][1..] == [""];
    }
    CleanRootOnly(["/"]);
  }

  /** `strings.Replace(s, pat, rep, -1)`: every non-overlapping `pat`, left to right. */
  function ReplaceAll(s: string, pat: string, rep: string): string
    requires pat != ""
    decreases |s|
  {
    if |s| < |pat| then s
    else if s[..|pat|] == pat then rep + ReplaceAll(s[|pat|..], pat, rep)
    else [s[0]] + ReplaceAll(s[1..], pat, rep)
  }

  /** `pat` occurs in `s` starting at `i`. */
  predicate OccursAt(s: string, pat: string, i: nat)
  {
    i + |pat| <= |s| && s[i..i + |pat|] == pat
  }

  /** Where the pattern does not start the string, the first character is kept. */
  lemma ReplaceStep(s: string, pat: string, rep: string)
    requires pat != "" && |s| >= |pat| && !OccursAt(s, pat, 0)
    ensures ReplaceAll(s, pat, rep) == [s[0]] + ReplaceAll(s[1..], pat, rep)
  {
    assert s[..|pat|] == s[0..|pat|];
  }

  /** An occurrence in the tail is an occurrence one further on in the whole. */
  lemma OccursShift(s: string, pat: string, i: nat)
    requires s != [] && OccursAt(s[1..], pat, i)
    ensures OccursAt(s, pat, i + 1)
  {
    assert s[1..][i..i + |pat|] == s[i + 1..i + 1 + |pat|];
  }

  /** A string without the pattern is left unchanged. */
  lemma {:induction false} ReplaceAbsent(s: string, pat: string, rep: string)
    requires pat != ""
    requires forall i: nat :: !OccursAt(s, pat, i)
    ensures ReplaceAll(s, pat, rep) == s
    decreases |s|
  {
    if |s| >= |pat| {
      ReplaceStep(s, pat, rep);
      forall i: nat ensures !OccursAt(s[1..], pat, i) {
        if OccursAt(s[1..], pat, i) {
          OccursShift(s, pat, i);
        }
      }
      ReplaceAbsent(s[1..], pat, rep);
      assert [s[0]] + s[1..] == s;
    }
  }

  /** The first occurrence is replaced and the text before it is kept. */
  lemma {:induction false} ReplaceFirst(a: string, pat: string, rep: string, b: string)
    requires pat != ""
    requires forall i: nat :: i < |a| ==> !OccursAt(a + pat + b, pat, i)
    ensures ReplaceAll(a + pat + b, pat, rep) == a + rep + ReplaceAll(b, pat, rep)
    decreases |a|
  {
    var s := a + pat + b;
    if a == [] {
      assert s == pat + b;
      assert s[..|pat|] == pat;
      assert s[|pat|..] == b;
    } else {
      ReplaceStep(s, pat, rep);
      assert s[1..] == a[1..] + pat + b;
      forall i: nat | i < |a[1..]| ensures !OccursAt(a[1..] + pat + b, pat, i) {
        if OccursAt(s[1..], pat, i) {
          OccursShift(s, pat, i);
        }
      }
      ReplaceFirst(a[1..], pat, rep, b);
      assert [a[0]] + (a[1..] + rep + ReplaceAll(b, pat, rep)) == a + rep + ReplaceAll(b, pat, rep);
    }
  }


  /** The placeholder in a registration prefix that stands for the lower-cased name. */
  const NamePlaceholder: string := "%v"

  /** `NewService`'s name: the prefix without its leading "/" when longer than one character. */
  function ServiceName(prefix: string): string
  {
    if |prefix| > 1 then prefix[1..] else ""
  }

  /** With the default folding, a service's prefix is "" or "/" followed by its name. */
  lemma ServiceNameOfClean(name: string)
    ensures var p := CleanWith(None, [name]);
      (p == "" && ServiceName(p) == "") || (ServiceName(p) != "" && p == "/" + ServiceName(p))
  {
    var p := CleanWith(None, [name]);
    if p != "" {
      assert p == "/" + p[1..];
      assert |p| > 1;
    }
  }

  /**
   * `Service.format` under the `Format` hook `format`: with no prefix arguments, the cleaned
   * name; otherwise the cleaned prefix with every "%v" replaced by the lower-cased name.
   */
  function FormatWith(format: Option<string -> string>, name: string, prefix: seq<string>): (r: string)
    ensures prefix == [] ==> r == CleanWith(format, [name])
  {
    if |prefix| == 0 then CleanWith(format, [name])
    else ReplaceAll(CleanWith(format, prefix), NamePlaceholder, Lower(name))
  }

  /** Whether a listed method is registered on `s`: exported, of this package, and admitted by the filter. */
  predicate Accepts(filter: Option<Filter>, s: Service, m: MethodInfo, receiver: Handle)
  {
    m.pkgPath == "" && Funcs.IsExported(m.name) && Admits(filter, s, Some(receiver), m.fn)
  }

  /** The method table `RegisterStruct` builds from the listed methods, later entries overwriting. */
  function MethodTable(filter: Option<Filter>, format: Option<string -> string>, s: Service,
                       ms: seq<MethodInfo>, receiver: Handle): map<string, Handle>
  {
    if ms == [] then map[]
    else
      var t := MethodTable(filter, format, s, ms[..|ms| - 1], receiver);
      var m := ms[|ms| - 1];
      if Accepts(filter, s, m, receiver) then t[CleanWith(format, [m.name]) := m.fn] else t
  }

  /** The route table after `RegisterStruct` has recorded each accepted method of struct `sname` of `s`. */
  function StructRoutes(filter: Option<Filter>, format: Option<string -> string>, s: Service, sname: string,
                        route: map<string, Service>, ms: seq<MethodInfo>, receiver: Handle): map<string, Service>
  {
    if ms == [] then route
    else
      var r := StructRoutes(filter, format, s, sname, route, ms[..|ms| - 1], receiver);
      var m := ms[|ms| - 1];
      if Accepts(filter, s, m, receiver) then r[PathJoin([s.prefix, sname, CleanWith(format, [m.name])]) := s]
      else r
  }

  class Service {
    const opts: Options
    const name: string
    const prefix: string
    var nodes: map<string, StructNode>
    var methods: map<string, Handle>

    /** `NewService`: the prefix is the cleaned name, and the name is the prefix without its "/". */
    constructor (serviceName: string, opts: Options)
      ensures this.opts == opts
      ensures prefix == CleanWith(opts.format, [serviceName]) && name == ServiceName(prefix)
      ensures nodes == map[] && methods == map[]
    {
      this.opts := opts;
      var p := CleanWith(opts.format, [serviceName]);
      prefix := p;
      name := ServiceName(p);
      nodes := map[];
      methods := map[];
    }

    /** Every registered function and struct has a non-empty name, and each struct is stored under its own. */
    predicate Valid()
      reads this`methods, this`nodes
    {
      (forall k :: k in methods ==> k != "") &&
      (forall k :: k in nodes ==> k != "" && nodes[k].name == k)
    }

    /** `RegisterFun`: add one function under its formatted name, refusing "", the filter, a duplicate. */
    method RegisterFun(fn: Handle, funcName: string, prefix: seq<string>) returns (err: Option<ServiceError>)
      requires Valid()
      modifies this`methods, opts`route
      ensures Valid()
      ensures var fname := FormatWith(opts.format, Funcs.FuncNameTail(funcName), prefix);
        if fname == "" then
          err == Some(NameEmpty) && methods == old(methods) && opts.route == old(opts.route)
        else if !Admits(opts.filter, this, None, fn) then
          err == Some(FilterRejected(fname)) && methods == old(methods) && opts.route == old(opts.route)
        else if fname in old(methods) then
          err == Some(MethodExists(fname)) && methods == old(methods) && opts.route == old(opts.route)
        else
          err == None && methods == old(methods)[fname := fn] &&
          opts.route == old(opts.route)[PathJoin([this.prefix, fname]) := this]
    {
      var fname := FormatWith(opts.format, Funcs.FuncNameTail(funcName), prefix);
      if fname == "" {
        return Some(NameEmpty);
      }
      if opts.filter.Some? && !opts.filter.value(this, None, fn) {
        return Some(FilterRejected(fname));
      }
      if fname in methods {
        return Some(MethodExists(fname));
      }
      methods := methods[fname := fn];
      opts.AddRoutePath(this, [fname]);
      assert [this.prefix] + [fname] == [this.prefix, fname];
      return None;
    }

    /**
     * `RegisterStruct`: add a handler struct under its formatted type name, refusing "" and a
     * duplicate; its method table holds the accepted methods under their cleaned names.
     */
    method RegisterStruct(receiver: Handle, typeName: string, listed: seq<MethodInfo>, prefix: seq<string>)
      returns (err: Option<ServiceError>)
      requires Valid()
      modifies this`nodes, opts`route
      ensures Valid()
      ensures var sname := FormatWith(opts.format, typeName, prefix);
        if sname == "" then
          err == Some(NameEmpty) && nodes == old(nodes) && opts.route == old(opts.route)
        else if sname in old(nodes) then
          err == Some(StructExists(sname)) && nodes == old(nodes) && opts.route == old(opts.route)
        else
          err == None &&
          nodes == old(nodes)[sname := StructNode(sname, receiver, MethodTable(opts.filter, opts.format, this, listed, receiver))] &&
          opts.route == StructRoutes(opts.filter, opts.format, this, sname, old(opts.route), listed, receiver)
    {
      var sname := FormatWith(opts.format, typeName, prefix);
      if sname == "" {
        return Some(NameEmpty);
      }
      if sname in nodes {
        return Some(StructExists(sname));
      }
      var table := AddMethods(sname, receiver, listed);
      nodes := nodes[sname := StructNode(sname, receiver, table)];
      return None;
    }

    /**
     * The loop of `RegisterStruct`: skip unexported methods and those the filter rejects, list each
     * other one under its cleaned name and add its route.
     */
    method AddMethods(sname: string, receiver: Handle, listed: seq<MethodInfo>) returns (table: map<string, Handle>)
      modifies opts`route
      ensures table == MethodTable(opts.filter, opts.format, this, listed, receiver)
      ensures opts.route == StructRoutes(opts.filter, opts.format, this, sname, old(opts.route), listed, receiver)
    {
      var format, filter := opts.format, opts.filter;
      table := map[];
      for m := 0 to |listed|
        invariant table == MethodTable(filter, format, this, listed[..m], receiver)
        invariant opts.route == StructRoutes(filter, format, this, sname, old(opts.route), listed[..m], receiver)
      {
        StructStep(filter, format, this, sname, old(opts.route), listed, m, receiver);
        var info := listed[m];
        if info.pkgPath != "" {
          continue;
        }
        if !Funcs.IsExported(info.name) {
          continue;
        }
        if filter.Some? && !filter.value(this, Some(receiver), info.fn) {
          continue;
        }
        var fname := CleanWith(format, [info.name]);
        table := table[fname := info.fn];
        opts.AddRoutePath(this, [sname, fname]);
        assert [this.prefix] + [sname, fname] == [this.prefix, sname, fname];
      }
      assert listed[..|listed|] == listed;
    }

    /**
     * `Match`: strip the prefix, then look the rest up as a function, or else split it at its
     * last "/" into a struct name and a method name.
     */
    function Match(path: string): (r: MatchResult)
      reads this`methods, this`nodes
      ensures r.ok <==> r.fn.Some?
      ensures r.ok ==> HasPrefix(path, prefix)
      ensures r.ok && r.proto.None? ==>
        path[|prefix|..] in methods && r.fn == Some(methods[path[|prefix|..]])
      ensures r.proto.Some? ==>
        r.ok && path[|prefix|..] !in methods &&
        exists s :: s in nodes && s != "" && HasPrefix(path[|prefix|..], s) &&
          path[|prefix| + |s|..] in nodes[s].methods &&
          r == MatchResult(Some(nodes[s].receiver), Some(nodes[s].methods[path[|prefix| + |s|..]]), true)
    {
      var index := |prefix|;
      if index > 0 && !HasPrefix(path, prefix) then MatchResult(None, None, false)
      else
        var name := path[index..];
        if name in methods then MatchResult(None, Some(methods[name]), true)
        else
          var last := Funcs.LastIndexOf(name, '/');
          if last <= 0 then MatchResult(None, None, false)
          else if name[..last] !in nodes then MatchResult(None, None, false)
          else
            var node := nodes[name[..last]];
            if name[last..] !in node.methods then MatchResult(None, None, false)
            else
              assert name[..last] == path[index..][..last] && path[index + last..] == name[last..];
              MatchResult(Some(node.receiver), Some(node.methods[name[last..]]), true)
    }
  }

  /** One more listed method changes the method table and the routes by that method alone. */
  lemma StructStep(filter: Option<Filter>, format: Option<string -> string>, s: Service, sname: string,
                   route: map<string, Service>, listed: seq<MethodInfo>, m: nat, receiver: Handle)
    requires m < |listed|
    ensures var init, info := listed[..m], listed[m];
      var key := CleanWith(format, [info.name]);
      MethodTable(filter, format, s, listed[..m + 1], receiver) ==
        (if Accepts(filter, s, info, receiver) then MethodTable(filter, format, s, init, receiver)[key := info.fn]
         else MethodTable(filter, format, s, init, receiver)) &&
      StructRoutes(filter, format, s, sname, route, listed[..m + 1], receiver) ==
        (if Accepts(filter, s, info, receiver)
         then StructRoutes(filter, format, s, sname, route, init, receiver)[PathJoin([s.prefix, sname, key]) := s]
         else StructRoutes(filter, format, s, sname, route, init, receiver))
  {
    assert listed[..m + 1][..m] == listed[..m];
  }

  /** A name is in a struct's method table exactly when some accepted method cleans to it. */
  lemma {:induction false} MethodTableKeys(filter: Option<Filter>, format: Option<string -> string>, s: Service,
                                           ms: seq<MethodInfo>, receiver: Handle, k: string)
    ensures k in MethodTable(filter, format, s, ms, receiver) <==>
      exists i :: 0 <= i < |ms| && Accepts(filter, s, ms[i], receiver) && CleanWith(format, [ms[i].name]) == k
    decreases |ms|
  {
    if ms != [] {
      var init := ms[..|ms| - 1];
      MethodTableKeys(filter, format, s, init, receiver, k);
      if exists i :: 0 <= i < |ms| && Accepts(filter, s, ms[i], receiver) && CleanWith(format, [ms[i].name]) == k {
        var i :| 0 <= i < |ms| && Accepts(filter, s, ms[i], receiver) && CleanWith(format, [ms[i].name]) == k;
        if i < |ms| - 1 {
          assert init[i] == ms[i];
        }
      }
      if exists i :: 0 <= i < |init| && Accepts(filter, s, init[i], receiver) && CleanWith(format, [init[i].name]) == k {
        var i :| 0 <= i < |init| && Accepts(filter, s, init[i], receiver) && CleanWith(format, [init[i].name]) == k;
        assert ms[i] == init[i];
      }
    }
  }

  /** A name bound in the method table holds the function of the last accepted method with that name. */
  lemma {:induction false} MethodTableValue(filter: Option<Filter>, format: Option<string -> string>, s: Service,
                                            ms: seq<MethodInfo>, receiver: Handle, i: nat)
    requires i < |ms| && Accepts(filter, s, ms[i], receiver)
    requires forall j :: i < j < |ms| && Accepts(filter, s, ms[j], receiver) ==>
      CleanWith(format, [ms[j].name]) != CleanWith(format, [ms[i].name])
    ensures var k := CleanWith(format, [ms[i].name]);
      k in MethodTable(filter, format, s, ms, receiver) && MethodTable(filter, format, s, ms, receiver)[k] == ms[i].fn
    decreases |ms|
  {
    if i < |ms| - 1 {
      var init := ms[..|ms| - 1];
      assert init[i] == ms[i];
      forall j | i < j < |init| && Accepts(filter, s, init[j], receiver)
        ensures CleanWith(format, [init[j].name]) != CleanWith(format, [init[i].name])
      {
        assert init[j] == ms[j];
      }
      MethodTableValue(filter, format, s, init, receiver, i);
    }
  }

  /**
   * Only exported methods reach the method table, and with the default folding each is
   * bound under a lower-case path of one segment below the root.
   */
  lemma MethodTableExported(filter: Option<Filter>, s: Service, ms: seq<MethodInfo>, receiver: Handle, k: string)
    requires forall i :: 0 <= i < |ms| ==> '/' !in ms[i].name
    requires k in MethodTable(filter, None, s, ms, receiver)
    ensures exists i :: 0 <= i < |ms| && Funcs.IsExported(ms[i].name) && ms[i].pkgPath == ""
    ensures IsSubPath(k) && IsLower(k)
  {
    MethodTableKeys(filter, None, s, ms, receiver, k);
    var i :| 0 <= i < |ms| && Accepts(filter, s, ms[i], receiver) && CleanWith(None, [ms[i].name]) == k;
    ExportedNotRoot(ms[i].name);
  }

  /** An exported method name (a Go identifier, so without "/") never cleans to "". */
  lemma ExportedNotRoot(name: string)
    requires Funcs.IsExported(name) && '/' !in name
    ensures CleanWith(None, [name]) != ""
  {
    Funcs.CleanIsPathName([name]);
    SplitSegment(name);
    assert [name][1..] == [];
    assert Elements([name]) == [name];
    assert IsSegment(name);
    CleanFromClean([], [name]);
    assert JoinedSegments([name]) == [name];
  }

  /** A registered function is found under the prefix followed by its name. */
  lemma MatchMethod(s: Service, k: string)
    requires k in s.methods
    ensures s.Match(s.prefix + k) == MatchResult(None, Some(s.methods[k]), true)
  {
    var path := s.prefix + k;
    assert path[..|s.prefix|] == s.prefix;
    assert path[|s.prefix|..] == k;
  }

  /** A struct method is found under the prefix, the struct name and the method name. */
  lemma MatchStructMethod(s: Service, sname: string, k: string)
    requires sname in s.nodes && sname != "" && k in s.nodes[sname].methods
    requires |k| >= 1 && k[0] == '/' && '/' !in k[1..]
    requires sname + k !in s.methods
    ensures s.Match(s.prefix + sname + k) ==
      MatchResult(Some(s.nodes[sname].receiver), Some(s.nodes[sname].methods[k]), true)
  {
    var path := s.prefix + sname + k;
    var name := sname + k;
    assert path[..|s.prefix|] == s.prefix;
    assert path[|s.prefix|..] == name;
    var last := Funcs.LastIndexOf(name, '/');
    assert name[|sname|] == '/';
    assert last == |sname| by {
      forall j | |sname| < j < |name| ensures name[j] != '/' {
        assert name[j] == k[1..][j - |sname| - 1];
      }
    }
    assert name[..last] == sname && name[last..] == k;
  }

  /** With the default folding, the route key a registration records is exactly the path `Match` accepts. */
  lemma RouteKeyIsMatchPath(prefix: string, names: seq<string>)
    requires prefix == "" || IsSubPath(prefix)
    requires forall i :: 0 <= i < |names| ==> IsSubPath(names[i])
    ensures PathJoin([prefix] + names) == prefix + Concat(names)
  {
    var all := [prefix] + names;
    forall i | 0 <= i < |all| ensures all[i] == "" || IsSubPath(all[i]) {
      if i > 0 {
        assert all[i] == names[i - 1];
      }
    }
    PathJoinSubPaths(all);
    assert all[1..] == names;
  }

  /** `format` with a prefix that holds no placeholder ignores the name. */
  lemma FormatLiteral(format: Option<string -> string>, name: string, prefix: seq<string>)
    requires prefix != []
    requires forall i: nat :: !OccursAt(CleanWith(format, prefix), NamePlaceholder, i)
    ensures FormatWith(format, name, prefix) == CleanWith(format, prefix)
  {
    ReplaceAbsent(CleanWith(format, prefix), NamePlaceholder, Lower(name));
  }

  /** `format` puts the lower-cased name where the first placeholder of the cleaned prefix stands. */
  lemma FormatPlaceholder(format: Option<string -> string>, name: string, prefix: seq<string>,
                          before: string, after: string)
    requires prefix != []
    requires CleanWith(format, prefix) == before + NamePlaceholder + after
    requires forall i: nat :: i < |before| ==> !OccursAt(before + NamePlaceholder + after, NamePlaceholder, i)
    ensures FormatWith(format, name, prefix) == before + Lower(name) + ReplaceAll(after, NamePlaceholder, Lower(name))
  {
    ReplaceFirst(before, NamePlaceholder, Lower(name), after);
  }
}

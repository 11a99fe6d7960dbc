/**
 * The string and path helpers of Go's standard library that the registry relies on,
 * restricted to what the registry feeds them:
 *  - `strings.Split(s, "/")` and `strings.Join(xs, "/")`,
 *  - `path.Join("/", fragments...)` (always rooted, since "/" comes first),
 *  - `strings.ToLower`, on ASCII letters only.
 */
module Paths {

  /** `strings.Split(s, "/")`: never empty; "" splits into [""]. */
  function Split(s: string): (r: seq<string>)
    ensures |r| >= 1
    ensures forall i :: 0 <= i < |r| ==> '/' !in r[i]
  {
    if s == [] then [""]
    else if s[0] == '/' then [""] + Split(s[1..])
    else
      var t := Split(s[1..]);
      [[s[0]] + t[0]] + t[1..]
  }

  /** `strings.Join(xs, "/")`. */
  function Join(xs: seq<string>): string
  {
    if |xs| == 0 then ""
    else if |xs| == 1 then xs[0]
    else xs[0] + "/" + Join(xs[1..])
  }

  lemma {:induction false} JoinSplit(s: string)
    ensures Join(Split(s)) == s
  {
    if s == [] {
    } else if s[0] == '/' {
      JoinSplit(s[1..]);
      var t := Split(s[1..]);
      assert Split(s) == [""] + t;
      assert ([""] + t)[1..] == t;
    } else {
      JoinSplit(s[1..]);
      var t := Split(s[1..]);
      var head := [s[0]] + t[0];
      assert Split(s) == [head] + t[1..];
      if |t| == 1 {
        assert Join(t) == t[0];
      } else {
        assert ([head] + t[1..])[1..] == t[1..];
        assert Join(t) == t[0] + "/" + Join(t[1..]);
        assert Join(Split(s)) == head + "/" + Join(t[1..]);
        assert head + "/" + Join(t[1..]) == [s[0]] + (t[0] + "/" + Join(t[1..]));
      }
      assert s == [s[0]] + s[1..];
    }
  }

  /** Splitting `a + "/" + b`, where `a` holds no separator, yields `a` and then the pieces of `b`. */
  lemma {:induction false} SplitAfterSegment(a: string, b: string)
    requires '/' !in a
    ensures Split(a + "/" + b) == [a] + Split(b)
    decreases |a|
  {
    if a == [] {
      assert a + "/" + b == "/" + b;
      assert ("/" + b)[1..] == b;
    } else {
      var s := a + "/" + b;
      assert s[0] == a[0] && s[1..] == a[1..] + "/" + b;
      SplitAfterSegment(a[1..], b);
      assert [a[0]] + a[1..] == a;
    }
  }

  /** Splitting a segment that holds no separator gives back just that segment. */
  lemma {:induction false} SplitSegment(a: string)
    requires '/' !in a
    ensures Split(a) == [a]
    decreases |a|
  {
    if a != [] {
      SplitSegment(a[1..]);
      assert [a[0]] + a[1..] == a;
    }
  }

  /** `Split` inverts `Join` on a non-empty list of separator-free pieces. */
  lemma {:induction false} SplitJoin(xs: seq<string>)
    requires |xs| >= 1
    requires forall i :: 0 <= i < |xs| ==> '/' !in xs[i]
    ensures Split(Join(xs)) == xs
    decreases |xs|
  {
    if |xs| == 1 {
      SplitSegment(xs[0]);
    } else {
      SplitJoin(xs[1..]);
      SplitAfterSegment(xs[0], Join(xs[1..]));
      assert [xs[0]] + xs[1..] == xs;
    }
  }

  /** A path element that `path.Clean` keeps: not empty, not "." or "..", and separator-free. */
  predicate IsSegment(s: string)
  {
    s != "" && s != "." && s != ".." && '/' !in s
  }

  predicate AllSegments(xs: seq<string>)
  {
    forall i :: 0 <= i < |xs| ==> IsSegment(xs[i])
  }

  /** One step of `path.Clean` on a rooted path: drop "" and ".", let ".." pop (no-op at the root). */
  function CleanStep(stack: seq<string>, elem: string): seq<string>
  {
    if elem == "" || elem == "." then stack
    else if elem == ".." then (if stack == [] then [] else stack[..|stack| - 1])
    else stack + [elem]
  }

  /** `path.Clean` on the elements of a rooted path, left to right, starting from `stack`. */
  function CleanFrom(stack: seq<string>, elems: seq<string>): seq<string>
    decreases |elems|
  {
    if elems == [] then stack else CleanFrom(CleanStep(stack, elems[0]), elems[1..])
  }

  /** What `path.Clean` keeps is made of segments only. */
  lemma {:induction false} CleanFromSegments(stack: seq<string>, elems: seq<string>)
    requires AllSegments(stack)
    requires forall i :: 0 <= i < |elems| ==> '/' !in elems[i]
    ensures AllSegments(CleanFrom(stack, elems))
    decreases |elems|
  {
    if elems != [] {
      CleanFromSegments(CleanStep(stack, elems[0]), elems[1..]);
    }
  }

  /** `path.Clean` leaves a list that is already clean unchanged. */
  lemma {:induction false} CleanFromClean(stack: seq<string>, elems: seq<string>)
    requires AllSegments(elems)
    ensures CleanFrom(stack, elems) == stack + elems
    decreases |elems|
  {
    if elems != [] {
      CleanFromClean(stack + [elems[0]], elems[1..]);
      assert stack + [elems[0]] + elems[1..] == stack + elems;
    }
  }

  /** The elements of all fragments, as `strings.Split` sees them once they are joined with "/". */
  function Elements(fragments: seq<string>): seq<string>
  {
    if fragments == [] then [] else Split(fragments[0]) + Elements(fragments[1..])
  }

  lemma {:induction false} ElementsNoSeparator(fragments: seq<string>)
    ensures forall i :: 0 <= i < |Elements(fragments)| ==> '/' !in Elements(fragments)[i]
  {
    if fragments != [] {
      ElementsNoSeparator(fragments[1..]);
    }
  }

  /** The clean segments of `path.Join("/", fragments...)`. */
  function JoinedSegments(fragments: seq<string>): (segs: seq<string>)
    ensures AllSegments(segs)
  {
    ElementsNoSeparator(fragments);
    CleanFromSegments([], Elements(fragments));
    CleanFrom([], Elements(fragments))
  }

  /** `path.Join("/", fragments...)`: a rooted, cleaned path. */
  function RootedJoin(fragments: seq<string>): string
  {
    "/" + Join(JoinedSegments(fragments))
  }

  /** A path `path.Clean` returns for a rooted input: "/" or "/" followed by clean segments. */
  predicate IsCanonical(p: string)
  {
    |p| >= 1 && p[0] == '/' && (p == "/" || AllSegments(Split(p[1..])))
  }

  /** The segments of a canonical path, the root having none. */
  function SegmentsOf(p: string): seq<string>
    requires IsCanonical(p)
  {
    if p == "/" then [] else Split(p[1..])
  }

  /** Rendering clean segments gives a canonical path whose segments are exactly those. */
  lemma RenderCanonical(segs: seq<string>)
    requires AllSegments(segs)
    ensures IsCanonical("/" + Join(segs))
    ensures SegmentsOf("/" + Join(segs)) == segs
  {
    var p := "/" + Join(segs);
    assert p[1..] == Join(segs);
    if segs == [] {
      assert p == "/";
    } else {
      SplitJoin(segs);
    }
  }

  /** `path.Join("/", ...)` always returns a canonical path. */
  lemma RootedJoinCanonical(fragments: seq<string>)
    ensures IsCanonical(RootedJoin(fragments))
    ensures SegmentsOf(RootedJoin(fragments)) == JoinedSegments(fragments)
  {
    RenderCanonical(JoinedSegments(fragments));
  }

  /** Joining a canonical path below the root gives it back unchanged. */
  lemma {:induction false} RootedJoinOfCanonical(p: string)
    requires IsCanonical(p)
    ensures RootedJoin([p]) == p
  {
    var rest := p[1..];
    assert p == "/" + rest;
    assert Split(p) == [""] + Split(rest);
    assert [p][1..] == [];
    assert Elements([p]) == Split(p) + Elements([]);
    if p == "/" {
      assert Split(rest) == [""];
      assert Elements([p]) == ["", ""];
      assert CleanFrom([], [""]) == CleanFrom([], []) == [];
      assert ["", ""][1..] == [""];
      assert CleanFrom([], ["", ""]) == CleanFrom([], [""]);
      assert JoinedSegments([p]) == [];
    } else {
      var segs := Split(rest);
      assert Elements([p]) == [""] + segs;
      CleanFromClean([], segs);
      assert CleanFrom([], [""] + segs) == CleanFrom([], segs) by {
        assert ([""] + segs)[1..] == segs;
      }
      assert JoinedSegments([p]) == segs;
      JoinSplit(rest);
    }
  }

  /** Splitting at a separator splits each side on its own. */
  lemma {:induction false} SplitConcat(a: string, b: string)
    ensures Split(a + "/" + b) == Split(a) + Split(b)
    decreases |a|
  {
    if a == [] {
      assert a + "/" + b == "/" + b;
      assert ("/" + b)[1..] == b;
    } else {
      var s := a + "/" + b;
      assert s[0] == a[0] && s[1..] == a[1..] + "/" + b;
      var t := Split(a[1..]);
      var u := Split(s[1..]);
      assert u == t + Split(b) by {
        SplitConcat(a[1..], b);
      }
      if a[0] == '/' {
        assert Split(s) == [""] + u;
        assert Split(a) == [""] + t;
      } else {
        assert Split(s) == [[a[0]] + u[0]] + u[1..];
        assert Split(a) == [[a[0]] + t[0]] + t[1..];
        assert u[0] == t[0] && u[1..] == t[1..] + Split(b);
      }
    }
  }

  /** `strings.Join` of two non-empty lists puts one separator between their joins. */
  lemma {:induction false} JoinAppend(xs: seq<string>, ys: seq<string>)
    requires xs != [] && ys != []
    ensures Join(xs + ys) == Join(xs) + "/" + Join(ys)
    decreases |xs|
  {
    if |xs| == 1 {
      assert (xs + ys)[1..] == ys;
    } else {
      JoinAppend(xs[1..], ys);
      assert (xs + ys)[1..] == xs[1..] + ys;
    }
  }

  /** Cleaning two runs of elements one after the other. */
  lemma {:induction false} CleanFromAppend(stack: seq<string>, xs: seq<string>, ys: seq<string>)
    ensures CleanFrom(stack, xs + ys) == CleanFrom(CleanFrom(stack, xs), ys)
    decreases |xs|
  {
    if xs == [] {
      assert xs + ys == ys;
    } else {
      assert (xs + ys)[0] == xs[0] && (xs + ys)[1..] == xs[1..] + ys;
      CleanFromAppend(CleanStep(stack, xs[0]), xs[1..], ys);
    }
  }

  /** One step of `path.Clean` on a relative path: a ".." that has no name to cancel is kept. */
  function CleanStepRelative(stack: seq<string>, elem: string): seq<string>
  {
    if elem == "" || elem == "." then stack
    else if elem == ".." then
      (if stack != [] && stack[|stack| - 1] != ".." then stack[..|stack| - 1] else stack + [".."])
    else stack + [elem]
  }

  function CleanFromRelative(stack: seq<string>, elems: seq<string>): seq<string>
    decreases |elems|
  {
    if elems == [] then stack else CleanFromRelative(CleanStepRelative(stack, elems[0]), elems[1..])
  }

  /** `path.Clean`: "." for the empty path; a rooted path stays rooted and ".." stops at the root. */
  function PathClean(p: string): string
  {
    if p == "" then "."
    else if p[0] == '/' then "/" + Join(CleanFrom([], Split(p[1..])))
    else
      var segs := CleanFromRelative([], Split(p));
      if segs == [] then "." else Join(segs)
  }

  /** The non-empty strings of `xs`, in order. */
  function NonEmpty(xs: seq<string>): (ys: seq<string>)
    ensures |ys| <= |xs|
    ensures forall i :: 0 <= i < |ys| ==> ys[i] != "" && ys[i] in xs
  {
    if xs == [] then []
    else if xs[0] == "" then NonEmpty(xs[1..])
    else [xs[0]] + NonEmpty(xs[1..])
  }

  /** `path.Join(elem...)`: "" when every element is empty, else the cleaned join of the others. */
  function PathJoin(elems: seq<string>): string
  {
    var xs := NonEmpty(elems);
    if xs == [] then "" else PathClean(Join(xs))
  }

  /** `strings.Split` of a `strings.Join` is the concatenation of the pieces' splits. */
  lemma {:induction false} SplitJoinElements(xs: seq<string>)
    requires xs != []
    ensures Split(Join(xs)) == Elements(xs)
    decreases |xs|
  {
    assert xs[1..] == [] ==> Elements(xs[1..]) == [];
    if |xs| > 1 {
      SplitJoinElements(xs[1..]);
      SplitConcat(xs[0], Join(xs[1..]));
    }
  }

  /** Empty fragments contribute only empty elements, which cleaning drops. */
  lemma {:induction false} CleanElementsNonEmpty(stack: seq<string>, fragments: seq<string>)
    ensures CleanFrom(stack, Elements(NonEmpty(fragments))) == CleanFrom(stack, Elements(fragments))
    decreases |fragments|
  {
    if fragments != [] {
      var f := fragments[0];
      var rest := fragments[1..];
      CleanFromAppend(stack, Split(f), Elements(rest));
      if f == "" {
        assert Split(f) == [""];
        assert CleanFrom(stack, [""]) == CleanFrom(stack, []) by { assert [""][1..] == []; }
        CleanElementsNonEmpty(stack, rest);
      } else {
        assert NonEmpty(fragments) == [f] + NonEmpty(rest);
        assert ([f] + NonEmpty(rest))[1..] == NonEmpty(rest);
        CleanFromAppend(stack, Split(f), Elements(NonEmpty(rest)));
        CleanElementsNonEmpty(CleanFrom(stack, Split(f)), rest);
      }
    }
  }

  /** `path.Join("/", fragments...)` in general terms is exactly `RootedJoin(fragments)`. */
  lemma RootedJoinIsPathJoin(fragments: seq<string>)
    ensures PathJoin(["/"] + fragments) == RootedJoin(fragments)
  {
    var all := ["/"] + fragments;
    assert all[0] == "/" && all[1..] == fragments;
    var ne := NonEmpty(fragments);
    assert NonEmpty(all) == ["/"] + ne;
    CleanElementsNonEmpty([], fragments);
    CleanRootedJoin(ne);
  }

  /** Cleaning the root followed by fragments cleans the fragments' elements from the root. */
  lemma CleanRootedJoin(ne: seq<string>)
    ensures PathClean(Join(["/"] + ne)) == "/" + Join(CleanFrom([], Elements(ne)))
  {
    if ne == [] {
      assert Join(["/"]) == "/";
      assert Split("") == [""];
      assert CleanFrom([], [""]) == CleanFrom([], []) by { assert [""][1..] == []; }
    } else {
      var j := Join(ne);
      assert (["/"] + ne)[1..] == ne;
      assert Join(["/"] + ne) == "/" + "/" + j;
      assert ("/" + "/" + j)[1..] == "/" + j;
      assert ("/" + j)[1..] == j;
      assert Split("/" + j) == [""] + Split(j);
      assert CleanFrom([], [""] + Split(j)) == CleanFrom([], Split(j)) by {
        assert ([""] + Split(j))[1..] == Split(j);
      }
      SplitJoinElements(ne);
    }
  }

  /** The concatenation of `xs`. */
  function Concat(xs: seq<string>): string
  {
    if xs == [] then "" else xs[0] + Concat(xs[1..])
  }

  /** A canonical path other than the root itself. */
  predicate IsSubPath(p: string)
  {
    IsCanonical(p) && p != "/"
  }

  lemma SubPathSegments(p: string)
    requires IsSubPath(p)
    ensures SegmentsOf(p) != [] && p == "/" + Join(SegmentsOf(p))
  {
    JoinSplit(p[1..]);
    assert p == "/" + p[1..];
  }

  /** The segments of several paths below the root, one path after the other. */
  function SegmentsOfAll(ps: seq<string>): (segs: seq<string>)
    requires forall i :: 0 <= i < |ps| ==> IsSubPath(ps[i])
    ensures AllSegments(segs)
  {
    if ps == [] then []
    else
      assert IsSubPath(ps[0]);
      SegmentsOf(ps[0]) + SegmentsOfAll(ps[1..])
  }

  /** Cleaning the "/"-join of paths below the root keeps all their segments, in order. */
  lemma {:induction false} CleanJoinedSubPaths(stack: seq<string>, ps: seq<string>)
    requires ps != []
    requires forall i :: 0 <= i < |ps| ==> IsSubPath(ps[i])
    ensures |Join(ps)| >= 1 && Join(ps)[0] == '/'
    ensures CleanFrom(stack, Split(Join(ps)[1..])) == stack + SegmentsOfAll(ps)
    decreases |ps|
  {
    if |ps| == 1 {
      CleanSingleSubPath(stack, ps);
    } else {
      var p, j := ps[0], Join(ps[1..]);
      assert IsSubPath(p);
      var segs, rest := SegmentsOf(p), SegmentsOfAll(ps[1..]);
      assert |j| >= 1 && j[0] == '/' && CleanFrom(stack + segs, Split(j[1..])) == stack + segs + rest by {
        CleanJoinedSubPaths(stack + segs, ps[1..]);
      }
      CleanAfterSubPath(stack, p, j, rest);
      assert Join(ps) == p + "/" + j;
      assert SegmentsOfAll(ps) == segs + rest;
    }
  }

  lemma CleanSingleSubPath(stack: seq<string>, ps: seq<string>)
    requires |ps| == 1 && IsSubPath(ps[0])
    ensures |Join(ps)| >= 1 && Join(ps)[0] == '/'
    ensures CleanFrom(stack, Split(Join(ps)[1..])) == stack + SegmentsOfAll(ps)
  {
    var segs := SegmentsOf(ps[0]);
    CleanFromClean(stack, segs);
    assert ps[1..] == [];
    assert SegmentsOfAll(ps) == segs + [];
    assert Join(ps) == ps[0];
  }

  lemma CleanAfterSubPath(stack: seq<string>, p: string, j: string, rest: seq<string>)
    requires IsSubPath(p) && |j| >= 1 && j[0] == '/'
    requires CleanFrom(stack + SegmentsOf(p), Split(j[1..])) == stack + SegmentsOf(p) + rest
    ensures (p + "/" + j)[0] == '/'
    ensures CleanFrom(stack, Split((p + "/" + j)[1..])) == stack + (SegmentsOf(p) + rest)
  {
    var segs := SegmentsOf(p);
    assert Split((p + "/" + j)[1..]) == segs + Split(j) by {
      assert (p + "/" + j)[1..] == p[1..] + "/" + j;
      SplitConcat(p[1..], j);
    }
    assert Split(j) == [""] + Split(j[1..]) by {
      assert j == "/" + j[1..];
    }
    assert CleanFrom(stack, segs + Split(j)) == CleanFrom(stack + segs, Split(j)) by {
      CleanFromAppend(stack, segs, Split(j));
      CleanFromClean(stack, segs);
    }
    assert CleanFrom(stack + segs, [""] + Split(j[1..])) == CleanFrom(stack + segs, Split(j[1..])) by {
      assert ([""] + Split(j[1..]))[1..] == Split(j[1..]);
    }
  }

  /** Paths below the root, written one after the other, form the path of all their segments. */
  lemma {:induction false} ConcatSubPaths(ps: seq<string>)
    requires ps != []
    requires forall i :: 0 <= i < |ps| ==> IsSubPath(ps[i])
    ensures SegmentsOfAll(ps) != [] && Concat(ps) == "/" + Join(SegmentsOfAll(ps))
    decreases |ps|
  {
    var p := ps[0];
    assert IsSubPath(p);
    if |ps| == 1 {
      SubPathSegments(p);
      assert ps[1..] == [];
      assert SegmentsOfAll(ps) == SegmentsOf(p) + [] == SegmentsOf(p);
      assert Concat(ps[1..]) == "";
      assert Concat(ps) == p + "" == p;
    } else {
      var rest := SegmentsOfAll(ps[1..]);
      assert rest != [] && Concat(ps[1..]) == "/" + Join(rest) by {
        ConcatSubPaths(ps[1..]);
      }
      PrependSubPath(p, Concat(ps[1..]), rest);
      assert SegmentsOfAll(ps) == SegmentsOf(p) + rest;
    }
  }

  lemma PrependSubPath(p: string, c: string, rest: seq<string>)
    requires IsSubPath(p) && rest != [] && c == "/" + Join(rest)
    ensures SegmentsOf(p) + rest != [] && p + c == "/" + Join(SegmentsOf(p) + rest)
  {
    var head := SegmentsOf(p);
    SubPathSegments(p);
    JoinAppend(head, rest);
    calc {
      p + c;
      ("/" + Join(head)) + ("/" + Join(rest));
      "/" + (Join(head) + "/" + Join(rest));
    }
  }

  lemma {:induction false} NonEmptyConcat(xs: seq<string>)
    ensures Concat(NonEmpty(xs)) == Concat(xs)
  {
    if xs != [] {
      NonEmptyConcat(xs[1..]);
      if xs[0] != "" {
        assert ([xs[0]] + NonEmpty(xs[1..]))[1..] == NonEmpty(xs[1..]);
      }
    }
  }

  /**
   * `path.Join` of paths that are each "" or canonical below the root is just their
   * concatenation: this is how the route table composes a service prefix with method names.
   */
  lemma PathJoinSubPaths(elems: seq<string>)
    requires forall i :: 0 <= i < |elems| ==> elems[i] == "" || IsSubPath(elems[i])
    ensures PathJoin(elems) == Concat(elems)
  {
    var ps := NonEmpty(elems);
    NonEmptyConcat(elems);
    if ps == [] {
      assert PathJoin(elems) == "";
    } else {
      forall i | 0 <= i < |ps| ensures IsSubPath(ps[i]) {
        assert ps[i] in elems;
      }
      CleanJoinedSubPaths([], ps);
      ConcatSubPaths(ps);
      var j := Join(ps);
      assert PathJoin(elems) == PathClean(j);
      assert PathClean(j) == "/" + Join(CleanFrom([], Split(j[1..])));
      assert [] + SegmentsOfAll(ps) == SegmentsOfAll(ps);
    }
  }

  /** `unicode.ToLower` on one ASCII letter; every other character is left alone. */
  function LowerChar(c: char): char
  {
    if 'A' <= c <= 'Z' then (c as int + 32) as char else c
  }

  /** `strings.ToLower`, ASCII only. */
  function Lower(s: string): string
  {
    seq(|s|, i requires 0 <= i < |s| => LowerChar(s[i]))
  }

  predicate IsLower(s: string)
  {
    Lower(s) == s
  }

  lemma LowerIdempotent(s: string)
    ensures IsLower(Lower(s))
  {
  }

  lemma LowerSegment(s: string)
    requires IsSegment(s)
    ensures IsSegment(Lower(s))
  {
  }

  function LowerAll(xs: seq<string>): (ys: seq<string>)
    ensures |ys| == |xs|
    ensures forall i :: 0 <= i < |xs| ==> ys[i] == Lower(xs[i])
  {
    if xs == [] then [] else [Lower(xs[0])] + LowerAll(xs[1..])
  }

  /** Lower-casing a joined path lower-cases each piece and keeps the separators. */
  lemma {:induction false} LowerJoin(xs: seq<string>)
    ensures Lower(Join(xs)) == Join(LowerAll(xs))
    decreases |xs|
  {
    if |xs| > 1 {
      LowerJoin(xs[1..]);
      assert LowerAll(xs)[1..] == LowerAll(xs[1..]);
      assert Lower(xs[0] + "/" + Join(xs[1..])) == Lower(xs[0]) + "/" + Lower(Join(xs[1..]));
    }
  }

  /** Lower-casing keeps a canonical path canonical, with its segments lower-cased. */
  lemma LowerCanonical(segs: seq<string>)
    requires AllSegments(segs)
    ensures Lower("/" + Join(segs)) == "/" + Join(LowerAll(segs))
    ensures AllSegments(LowerAll(segs))
  {
    LowerJoin(segs);
    assert Lower("/" + Join(segs)) == "/" + Lower(Join(segs));
    forall i | 0 <= i < |segs| ensures IsSegment(LowerAll(segs)[i]) {
      LowerSegment(segs[i]);
    }
  }
}

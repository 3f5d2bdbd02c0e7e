/**
 The pieces of Go's slash-separated path handling that main.go calls:
 `path.Base`, `path.Join` and the `path.Clean` it finishes with. On a
 system whose separator is `/`, `filepath.Join` and the `filepath.Clean` it
 finishes with compute the same thing for two elements, so `Join` models
 both.

 `Clean` is given by the rules its documentation states, over the path's
 elements: repeated slashes and `.` elements go, each `..` removes the
 non-`..` element before it, a `..` at the start of a rooted path goes, and
 an empty result is `.`.
 */
module GoPath {
  import opened GoStrings

  // ---------------------------------------------------------------------
  // path.Base

  predicate AllSlash(s: string) {
    forall k :: 0 <= k < |s| ==> s[k] == '/'
  }

  /** `p` without its trailing slashes. */
  function TrimTrailingSlashes(p: string): (r: string)
    ensures |r| <= |p| && r == p[..|r|]
    ensures AllSlash(p[|r|..])
    ensures r != [] ==> r[|r| - 1] != '/'
    decreases |p|
  {
    if p != [] && p[|p| - 1] == '/' then TrimTrailingSlashes(p[..|p| - 1]) else p
  }

  /** `path.Base`: `.` for the empty path, `/` for a path of slashes only,
      otherwise the last element once trailing slashes are dropped: a
      non-empty run without slashes that ends the trimmed path and is either
      all of it or preceded by a slash. */
  function Base(p: string): (r: string)
    ensures p == [] ==> r == "."
    ensures p != [] && AllSlash(p) ==> r == "/"
    ensures !AllSlash(p) ==> r != [] && '/' !in r
    ensures !AllSlash(p) ==> var t := TrimTrailingSlashes(p);
      EndsWith(t, r) && (|r| == |t| || t[|t| - |r| - 1] == '/')
  {
    if p == [] then "."
    else
      var t := TrimTrailingSlashes(p);
      var i := LastIndex(t, '/');
      var e := t[i + 1..];
      BaseCases(p, t, i, e);
      if e == [] then "/" else e
  }

  lemma BaseCases(p: string, t: string, i: int, e: string)
    requires p != [] && t == TrimTrailingSlashes(p)
    requires i == LastIndex(t, '/') && e == t[i + 1..]
    ensures e == [] <==> AllSlash(p)
    ensures '/' !in e
  {
    forall k | 0 <= k < |e| ensures e[k] != '/' {
      assert e[k] == t[i + 1 + k];
    }
    if t != [] {
      assert t[|t| - 1] != '/';
      assert |e| > 0;
    }
    if e == [] {
      forall k | 0 <= k < |p| ensures p[k] == '/' {
        assert p[|t|..][k] == p[k];
      }
    } else {
      assert t != [];
      assert p[|t| - 1] == t[|t| - 1] != '/';
    }
  }

  /** A trailing slash does not change the base: the base of `a/b/` is `b`. */
  lemma BaseIgnoresTrailingSlash(p: string)
    requires p != []
    ensures Base(p + "/") == Base(p)
  {
    assert (p + "/")[..|p|] == p;
    assert TrimTrailingSlashes(p + "/") == TrimTrailingSlashes(p);
    if AllSlash(p) {
      assert AllSlash(p + "/");
    } else {
      var k :| 0 <= k < |p| && p[k] != '/';
      assert (p + "/")[k] == p[k];
    }
  }

  /** The base of `a/e`, where `e` is a non-empty run without slashes, is `e`. */
  lemma BaseLastElement(a: string, e: string)
    requires e != [] && '/' !in e
    ensures Base(a + "/" + e) == e
  {
    var p := a + "/" + e;
    assert p[|p| - 1] == e[|e| - 1];
    assert TrimTrailingSlashes(p) == p;
    assert p[|a|] == '/';
    forall j | |a| < j < |p| ensures p[j] != '/' {
      assert p[j] == e[j - |a| - 1];
    }
    assert LastIndex(p, '/') == |a|;
    assert p[|a| + 1..] == e;
  }

  // ---------------------------------------------------------------------
  // Elements of a path

  /** The elements of `p`: the runs between its slashes, empty runs included.
      There is always at least one. */
  function Split(p: string): (es: seq<string>)
    ensures |es| >= 1
    ensures forall k :: 0 <= k < |es| ==> '/' !in es[k]
    decreases |p|
  {
    var k := LastIndex(p, '/');
    if k < 0 then [p] else Split(p[..k]) + [p[k + 1..]]
  }

  /** `Split` cuts at the last slash. */
  lemma SplitAtLast(p: string)
    ensures LastIndex(p, '/') < 0 ==> Split(p) == [p]
    ensures LastIndex(p, '/') >= 0 ==>
      Split(p) == Split(p[..LastIndex(p, '/')]) + [p[LastIndex(p, '/') + 1..]]
  {
  }

  /** The elements joined with `/` between them; no element gives "". */
  function JoinElems(es: seq<string>): string
    decreases |es|
  {
    if es == [] then ""
    else if |es| == 1 then es[0]
    else JoinElems(es[..|es| - 1]) + "/" + es[|es| - 1]
  }

  lemma JoinElemsSnoc(es: seq<string>, e: string)
    requires es != []
    ensures JoinElems(es + [e]) == JoinElems(es) + "/" + e
  {
    assert (es + [e])[..|es|] == es;
  }

  /** Splitting `a/s`, where `s` holds no slash, adds `s` after `a`'s elements. */
  lemma SplitSnoc(a: string, s: string)
    requires '/' !in s
    ensures Split(a + "/" + s) == Split(a) + [s]
  {
    var p := a + "/" + s;
    var k := LastIndex(p, '/');
    assert p[|a|] == '/';
    forall j | |a| < j < |p| ensures p[j] != '/' {
      assert p[j] == s[j - |a| - 1];
    }
    assert k == |a|;
    assert p[..k] == a && p[k + 1..] == s;
  }

  /** Splitting `a/b` gives `a`'s elements followed by `b`'s. */
  lemma {:induction false} SplitConcat(a: string, b: string)
    ensures Split(a + "/" + b) == Split(a) + Split(b)
    decreases |b|
  {
    var k := LastIndex(b, '/');
    if k < 0 {
      SplitSnoc(a, b);
    } else {
      var b1, b2 := b[..k], b[k + 1..];
      assert b == b1 + "/" + b2;
      assert a + "/" + b == (a + "/" + b1) + "/" + b2;
      SplitSnoc(a + "/" + b1, b2);
      SplitConcat(a, b1);
    }
  }

  /** Joining the elements of a path gives the path back. */
  lemma {:induction false} JoinSplit(p: string)
    ensures JoinElems(Split(p)) == p
    decreases |p|
  {
    var k := LastIndex(p, '/');
    if k >= 0 {
      JoinSplit(p[..k]);
      JoinElemsSnoc(Split(p[..k]), p[k + 1..]);
      assert p == p[..k] + "/" + p[k + 1..];
    }
  }

  /** Splitting a join of slash-free elements gives the elements back. */
  lemma {:induction false} SplitJoin(es: seq<string>)
    requires |es| >= 1
    requires forall k :: 0 <= k < |es| ==> '/' !in es[k]
    ensures Split(JoinElems(es)) == es
    decreases |es|
  {
    if |es| == 1 {
      assert LastIndex(es[0], '/') < 0;
    } else {
      var init, e := es[..|es| - 1], es[|es| - 1];
      assert forall k :: 0 <= k < |init| ==> init[k] == es[k];
      SplitJoin(init);
      assert JoinElems(es) == JoinElems(init) + "/" + e;
      SplitSnoc(JoinElems(init), e);
      assert init + [e] == es;
    }
  }

  // ---------------------------------------------------------------------
  // path.Clean

  /** An element that names something: not empty, not `.`, no slash. */
  predicate IsNamed(e: string) {
    e != "" && e != "." && '/' !in e
  }

  /** The shape of a cleaned element list: named elements only, every `..`
      before every other element, and no `..` at all in a rooted path. */
  predicate Canonical(rooted: bool, st: seq<string>) {
    && (forall k :: 0 <= k < |st| ==> IsNamed(st[k]))
    && (forall j, k :: 0 <= j < k < |st| && st[k] == ".." ==> st[j] == "..")
    && (rooted ==> forall k :: 0 <= k < |st| ==> st[k] != "..")
  }

  /** One element of the path applied to the elements kept so far. */
  function Step(rooted: bool, st: seq<string>, e: string): seq<string> {
    if e == "" || e == "." then st
    else if e == ".." then
      if st != [] && st[|st| - 1] != ".." then st[..|st| - 1]
      else if rooted then st
      else st + [".."]
    else st + [e]
  }

  /** The elements of a path left after the rules of `Clean`, in order. */
  function Resolve(rooted: bool, es: seq<string>): seq<string>
    decreases |es|
  {
    if es == [] then []
    else Step(rooted, Resolve(rooted, es[..|es| - 1]), es[|es| - 1])
  }

  /** Slash-free elements resolve to a canonical element list. */
  lemma {:induction false} ResolveIsCanonical(rooted: bool, es: seq<string>)
    requires forall k :: 0 <= k < |es| ==> '/' !in es[k]
    ensures Canonical(rooted, Resolve(rooted, es))
    decreases |es|
  {
    if es != [] {
      var init, e := es[..|es| - 1], es[|es| - 1];
      assert forall k :: 0 <= k < |init| ==> init[k] == es[k];
      ResolveIsCanonical(rooted, init);
      var st := Resolve(rooted, init);
      if e == ".." && !(st != [] && st[|st| - 1] != "..") && !rooted {
        assert forall k :: 0 <= k < |st| ==> st[k] == "..";
      }
    }
  }

  /** The text of a cleaned path. */
  function Render(rooted: bool, st: seq<string>): string {
    if rooted then "/" + JoinElems(st)
    else if st == [] then "."
    else JoinElems(st)
  }

  /** `path.Clean`. */
  function Clean(p: string): string {
    if p == [] then "."
    else
      var rooted := p[0] == '/';
      Render(rooted, Resolve(rooted, Split(p)))
  }

  // ---------------------------------------------------------------------
  // path.Join and filepath.Join, two elements

  /** `path.Join(a, b)`: the empty elements are skipped, the others joined
      with `/`, and the result cleaned; "" when both are empty. */
  function Join(a: string, b: string): (r: string)
    ensures a == [] && b == [] <==> r == []
  {
    if a == [] && b == [] then ""
    else if a == [] then CleanNotEmpty(b); Clean(b)
    else CleanNotEmpty(a + "/" + b); Clean(a + "/" + b)
  }

  // ---------------------------------------------------------------------
  // What Clean produces

  predicate NoDoubleSlash(s: string) {
    forall i :: 0 < i < |s| ==> !(s[i - 1] == '/' && s[i] == '/')
  }

  /** Named elements joined by `/`: no doubled slash and none at either end. */
  lemma {:induction false} JoinNamedShape(st: seq<string>)
    requires forall k :: 0 <= k < |st| ==> IsNamed(st[k])
    ensures st != [] ==> JoinElems(st) != [] && JoinElems(st) != "."
    ensures st != [] ==> JoinElems(st)[0] != '/' && JoinElems(st)[|JoinElems(st)| - 1] != '/'
    ensures |st| >= 2 ==> '/' in JoinElems(st)
    ensures NoDoubleSlash(JoinElems(st))
    decreases |st|
  {
    if |st| == 1 {
      assert JoinElems(st) == st[0];
      assert IsNamed(st[0]);
    } else if |st| > 1 {
      var init, e := st[..|st| - 1], st[|st| - 1];
      JoinNamedShape(init);
      var j := JoinElems(init);
      var r := j + "/" + e;
      assert JoinElems(st) == r;
      assert IsNamed(e);
      assert r[|j|] == '/';
      assert r[0] == j[0];
      assert r[|r| - 1] == e[|e| - 1];
      forall i | 0 < i < |r| ensures !(r[i - 1] == '/' && r[i] == '/') {
        if i < |j| {
          assert r[i - 1] == j[i - 1] && r[i] == j[i];
        } else if i == |j| {
          assert r[i - 1] == j[|j| - 1];
        } else if i == |j| + 1 {
          assert r[i] == e[0];
        } else {
          assert r[i] == e[i - |j| - 1];
        }
      }
    }
  }

  lemma CleanNotEmpty(p: string)
    ensures Clean(p) != []
  {
    if p != [] {
      var rooted := p[0] == '/';
      var st := Resolve(rooted, Split(p));
      ResolveIsCanonical(rooted, Split(p));
      JoinNamedShape(st);
    }
  }

  /** What `Clean` returns is never empty, has no doubled slash, ends in a
      slash only when it is the root `/`, and is rooted exactly when `p` is. */
  lemma CleanShape(p: string)
    ensures Clean(p) != []
    ensures NoDoubleSlash(Clean(p))
    ensures Clean(p)[|Clean(p)| - 1] == '/' ==> Clean(p) == "/"
    ensures Clean(p)[0] == '/' <==> p != [] && p[0] == '/'
  {
    if p != [] {
      var rooted := p[0] == '/';
      var st := Resolve(rooted, Split(p));
      ResolveIsCanonical(rooted, Split(p));
      JoinNamedShape(st);
      var j := JoinElems(st);
      if rooted {
        var r := "/" + j;
        forall i | 0 < i < |r| ensures !(r[i - 1] == '/' && r[i] == '/') {
          if i == 1 {
            assert r[1] == j[0];
          } else {
            assert r[i - 1] == j[i - 2] && r[i] == j[i - 1];
          }
        }
      }
    }
  }

  /** A cleaned element list reads back as itself. */
  lemma {:induction false} ResolveCanonical(rooted: bool, st: seq<string>)
    requires Canonical(rooted, st)
    ensures Resolve(rooted, st) == st
    decreases |st|
  {
    if st != [] {
      var init := st[..|st| - 1];
      assert Canonical(rooted, init);
      ResolveCanonical(rooted, init);
      var e := st[|st| - 1];
      if e == ".." {
        assert forall k :: 0 <= k < |init| ==> init[k] == "..";
      }
    }
  }

  /** Cleaning a clean path changes nothing. */
  lemma CleanIdempotent(p: string)
    ensures Clean(Clean(p)) == Clean(p)
  {
    if p == [] {
      CleanRender(false, []);
    } else {
      var rooted := p[0] == '/';
      ResolveIsCanonical(rooted, Split(p));
      CleanRender(rooted, Resolve(rooted, Split(p)));
    }
  }

  /** The text of a cleaned element list is left alone by `Clean`. */
  lemma CleanRender(rooted: bool, st: seq<string>)
    requires Canonical(rooted, st)
    ensures Clean(Render(rooted, st)) == Render(rooted, st)
  {
    JoinNamedShape(st);
    if rooted {
      CleanRenderRooted(st);
    } else if st == [] {
      assert Split(".") == ["."];
      assert ["."][..0] == [];
    } else {
      var j := JoinElems(st);
      assert j[0] != '/';
      SplitJoin(st);
      ResolveCanonical(false, st);
    }
  }

  lemma CleanRenderRooted(st: seq<string>)
    requires Canonical(true, st)
    ensures Clean(Render(true, st)) == Render(true, st)
  {
    var j := JoinElems(st);
    var c := "/" + j;
    assert c == "" + "/" + j;
    SplitConcat("", j);
    assert Split("") == [""];
    if st == [] {
      assert Split(c) == ["", ""];
      assert ["", ""][..1] == [""];
      assert [""][..0] == [];
      assert Resolve(true, ["", ""]) == [];
    } else {
      SplitJoin(st);
      assert Split(c) == [""] + st;
      ResolvePrefixEmpty(true, st);
      ResolveCanonical(true, st);
    }
  }

  /** A leading empty element (the root slash) is skipped. */
  lemma ResolvePrefixEmpty(rooted: bool, es: seq<string>)
    ensures Resolve(rooted, [""] + es) == Resolve(rooted, es)
  {
    assert [""] == [] + [""];
    ResolveSnoc(rooted, [], "");
    ResolveSameStart(rooted, [""], [], es);
    assert [] + es == es;
  }

  // ---------------------------------------------------------------------
  // Cleaning a path with one more element

  /** A directory path followed by one more named element, written as
      `path.Join` writes it. */
  function Extend(dir: string, e: string): string {
    if dir == "/" then "/" + e
    else if dir == "." then e
    else dir + "/" + e
  }

  /** Appending a named element (not `..`) to a non-empty path appends it to
      the cleaned path. */
  lemma CleanAppendNamed(a: string, e: string)
    requires a != []
    requires IsNamed(e) && e != ".."
    ensures Clean(a + "/" + e) == Extend(Clean(a), e)
  {
    var rooted := a[0] == '/';
    assert (a + "/" + e)[0] == a[0];
    SplitSnoc(a, e);
    ResolveSnocNamed(rooted, Split(a), e);
    ResolveIsCanonical(rooted, Split(a));
    RenderSnoc(rooted, Resolve(rooted, Split(a)), e);
  }

  lemma ResolveSnocNamed(rooted: bool, es: seq<string>, e: string)
    requires IsNamed(e) && e != ".."
    ensures Resolve(rooted, es + [e]) == Resolve(rooted, es) + [e]
  {
    assert (es + [e])[..|es|] == es;
  }

  lemma RenderSnoc(rooted: bool, st: seq<string>, e: string)
    requires forall k :: 0 <= k < |st| ==> IsNamed(st[k])
    ensures Render(rooted, st + [e]) == Extend(Render(rooted, st), e)
  {
    if st == [] {
      assert st + [e] == [e];
    } else {
      JoinNamedNotBare(st);
      JoinElemsSnoc(st, e);
    }
  }

  /** Named elements never join to "", "/" or ".". */
  lemma JoinNamedNotBare(st: seq<string>)
    requires st != []
    requires forall k :: 0 <= k < |st| ==> IsNamed(st[k])
    ensures JoinElems(st) != [] && JoinElems(st)[0] != '/' && JoinElems(st) != "."
  {
    JoinNamedShape(st);
  }

  /** Appending an empty or a `.` element to a non-empty path does not change
      the cleaned path. */
  lemma CleanAppendDot(a: string, e: string)
    requires a != []
    requires e == "" || e == "."
    ensures Clean(a + "/" + e) == Clean(a)
  {
    var es := Split(a);
    SplitSnoc(a, e);
    assert (es + [e])[..|es|] == es;
  }

  /** A doubled trailing slash does not change the cleaned path. */
  lemma CleanAppendDoubleSlash(a: string)
    requires a != []
    ensures Clean(a + "/" + "/") == Clean(a)
  {
    assert a + "/" + "/" == (a + "/") + "/" + "";
    CleanAppendDot(a + "/", "");
    CleanAppendDot(a, "");
  }

  /** The two texts `Base` gives for a path without a named element are
      already clean. */
  lemma CleanDotAndRoot()
    ensures Clean(".") == "."
    ensures Clean("/") == "/"
  {
    assert Split(".") == ["."];
    assert ["."][..0] == [];
    assert "/" == "" + "/" + "";
    SplitSnoc("", "");
    assert Split("/") == ["", ""];
    assert ["", ""][..1] == [""];
    assert [""][..0] == [];
  }

  /** A `..` after a named element cancels it. */
  lemma CleanAppendNamedDotDot(a: string, e: string)
    requires a != []
    requires IsNamed(e) && e != ".."
    ensures Clean(a + "/" + e + "/" + "..") == Clean(a)
  {
    var rooted := a[0] == '/';
    assert (a + "/" + e + "/" + "..")[0] == a[0];
    SplitSnoc(a, e);
    SplitSnoc(a + "/" + e, "..");
    ResolveSnocNamedDotDot(rooted, Split(a), e);
  }

  lemma ResolveSnocNamedDotDot(rooted: bool, es: seq<string>, e: string)
    requires IsNamed(e) && e != ".."
    ensures Resolve(rooted, es + [e] + [".."]) == Resolve(rooted, es)
  {
    assert (es + [e] + [".."])[..|es| + 1] == es + [e];
    ResolveSnocNamed(rooted, es, e);
    var st := Resolve(rooted, es);
    assert (st + [e])[..|st|] == st;
  }

  /** Cleaning follows the elements: one more element is one more `Step`. */
  lemma ResolveSnoc(rooted: bool, es: seq<string>, e: string)
    ensures Resolve(rooted, es + [e]) == Step(rooted, Resolve(rooted, es), e)
  {
    assert (es + [e])[..|es|] == es;
  }

  /** A named element on its own is already clean. */
  lemma CleanNamed(e: string)
    requires IsNamed(e) && e != ".."
    ensures Clean(e) == e
  {
    assert e[0] != '/';
    assert LastIndex(e, '/') < 0;
    assert Split(e) == [e];
    assert [e][..0] == [];
    assert Resolve(false, [e]) == [e];
  }

  // ---------------------------------------------------------------------
  // Cleaning a path that has no `..` element

  /** The named elements of an element list, in order. */
  function NamedElems(es: seq<string>): (ns: seq<string>)
    ensures |ns| <= |es|
    decreases |es|
  {
    if es == [] then []
    else
      var e := es[|es| - 1];
      NamedElems(es[..|es| - 1]) + (if e == "" || e == "." then [] else [e])
  }

  lemma {:induction false} NamedElemsConcat(a: seq<string>, b: seq<string>)
    ensures NamedElems(a + b) == NamedElems(a) + NamedElems(b)
    decreases |b|
  {
    if b == [] {
      assert a + b == a;
    } else {
      var init, e := b[..|b| - 1], b[|b| - 1];
      NamedElemsConcat(a, init);
      assert (a + b)[..|a + b| - 1] == a + init && (a + b)[|a + b| - 1] == e;
      assert NamedElems(b) == NamedElems(init) + (if e == "" || e == "." then [] else [e]);
    }
  }

  /** Without `..` elements, cleaning only drops empty and `.` elements. */
  lemma {:induction false} ResolveNoDotDot(rooted: bool, es: seq<string>)
    requires forall k :: 0 <= k < |es| ==> es[k] != ".."
    ensures Resolve(rooted, es) == NamedElems(es)
    decreases |es|
  {
    if es != [] {
      ResolveNoDotDot(rooted, es[..|es| - 1]);
    }
  }

  lemma {:induction false} JoinElemsCons(h: string, es: seq<string>)
    requires es != []
    ensures JoinElems([h] + es) == h + "/" + JoinElems(es)
    decreases |es|
  {
    var init, e := es[..|es| - 1], es[|es| - 1];
    AppendLast([h], es);
    JoinElemsSnoc([h] + init, e);
    if |es| == 1 {
      assert [h] + init == [h];
    } else {
      JoinElemsCons(h, init);
      assert init + [e] == es;
      JoinElemsSnoc(init, e);
    }
  }

  /** Joining a named head element `h` (no slash, not `.` or `..`) with a path
      `b` that has no `..` element keeps `h` verbatim in front, followed by
      `b`'s named elements. */
  lemma CleanUnderHead(h: string, b: string)
    requires IsNamed(h) && h != ".."
    requires forall k :: 0 <= k < |Split(b)| ==> Split(b)[k] != ".."
    ensures var ns := NamedElems(Split(b));
      Clean(h + "/" + b) == if ns == [] then h else h + "/" + JoinElems(ns)
  {
    SplitConcat(h, b);
    assert LastIndex(h, '/') < 0;
    assert (h + "/" + b)[0] == h[0] != '/';
    ResolveUnderHead(h, Split(b));
    var ns := NamedElems(Split(b));
    if ns != [] {
      JoinElemsCons(h, ns);
    }
  }

  lemma ResolveUnderHead(h: string, es: seq<string>)
    requires IsNamed(h) && h != ".."
    requires forall k :: 0 <= k < |es| ==> es[k] != ".."
    ensures Resolve(false, [h] + es) == [h] + NamedElems(es)
  {
    forall k | 0 <= k < |[h] + es| ensures ([h] + es)[k] != ".." {
      if k > 0 {
        assert ([h] + es)[k] == es[k - 1];
      }
    }
    ResolveNoDotDot(false, [h] + es);
    NamedElemsConcat([h], es);
    assert [h][..0] == [];
    assert NamedElems([h]) == [h];
  }


  // ---------------------------------------------------------------------
  // Leaving the first element with `..`

  /** What follows a prefix is resolved from where the prefix left off: two
      prefixes that resolve alike stay alike whatever comes after them. */
  lemma {:induction false} ResolveSameStart(rooted: bool, a: seq<string>, a': seq<string>, b: seq<string>)
    requires Resolve(rooted, a) == Resolve(rooted, a')
    ensures Resolve(rooted, a + b) == Resolve(rooted, a' + b)
    decreases |b|
  {
    if b == [] {
      assert a + b == a && a' + b == a';
    } else {
      var init, x := b[..|b| - 1], b[|b| - 1];
      ResolveSameStart(rooted, a, a', init);
      var st := Resolve(rooted, a + init);
      AppendLast(a, b);
      AppendLast(a', b);
      calc {
        Resolve(rooted, a + b);
        { ResolveSnoc(rooted, a + init, x); }
        Step(rooted, st, x);
        { ResolveSnoc(rooted, a' + init, x); }
        Resolve(rooted, a' + b);
      }
    }
  }

  /** `b`'s last element, split off after `a`. */
  lemma AppendLast<T>(a: seq<T>, b: seq<T>)
    requires b != []
    ensures a + b == (a + b[..|b| - 1]) + [b[|b| - 1]]
  {
  }

  /** The elements `h`, empty, `..` resolve to nothing in a relative path. */
  lemma ResolveHeadUp(h: string)
    requires IsNamed(h) && h != ".."
    ensures Resolve(false, [h, "", ".."]) == []
  {
    assert [h] == [] + [h] && [h, ""] == [h] + [""] && [h, "", ".."] == [h, ""] + [".."];
    ResolveSnoc(false, [], h);
    ResolveSnoc(false, [h], "");
    ResolveSnoc(false, [h, ""], "..");
    assert Resolve(false, [h, ""]) == [h];
  }

  /** The elements of `h//..`. */
  lemma SplitHeadUp(h: string)
    requires IsNamed(h)
    ensures Split(h + "/" + "" + "/" + "..") == [h, "", ".."]
  {
    assert LastIndex(h, '/') < 0;
    SplitSnoc(h, "");
    SplitSnoc(h + "/" + "", "..");
  }

  /** The elements of `h//../r` resolve as those of `r` alone. */
  lemma ResolveEscapesHead(h: string, r: string)
    requires IsNamed(h) && h != ".."
    ensures Resolve(false, Split(h + "/" + "" + "/" + ".." + "/" + r)) == Resolve(false, Split(r))
  {
    var a := h + "/" + "" + "/" + "..";
    SplitConcat(a, r);
    SplitHeadUp(h);
    ResolveHeadUp(h);
    ResolveSameStart(false, [h, "", ".."], [], Split(r));
    assert [] + Split(r) == Split(r);
  }

  /** A relative path `r` joined below `h` with a leading `/..` climbs back
      out of `h`: the result is `r` cleaned, with no trace of `h`. */
  lemma CleanEscapesHead(h: string, r: string)
    requires IsNamed(h) && h != ".."
    requires r != [] && r[0] != '/'
    ensures Clean(h + "/" + ("/" + ".." + "/" + r)) == Clean(r)
  {
    var p := h + "/" + "" + "/" + ".." + "/" + r;
    assert h + "/" + ("/" + ".." + "/" + r) == p;
    assert p[0] == h[0];
    ResolveEscapesHead(h, r);
  }
}

/**
 * The lexical path operations of Go's path/filepath on a Unix host (separator '/'):
 * Clean, Join, Rel and Base. A path is read as a rooted flag and a list of elements;
 * Clean is the Plan 9 normalisation: drop empty and "." elements, let ".." cancel the
 * element before it, and drop ".." right under the root.
 */
module FilePath {
  import opened Common
  import opened Text

  datatype Path = Path(rooted: bool, elems: seq<string>)

  predicate IsAbs(s: string)
  {
    |s| > 0 && s[0] == '/'
  }

  /** An element a cleaned path may hold. */
  predicate IsElem(e: string)
  {
    e != "" && e != "." && '/' !in e
  }

  /** The shape Clean produces: proper elements, ".." only as a leading run, and never under the root. */
  predicate Normal(p: Path)
  {
    && (forall i :: 0 <= i < |p.elems| ==> IsElem(p.elems[i]))
    && (p.rooted ==> forall i :: 0 <= i < |p.elems| ==> p.elems[i] != "..")
    && (forall i, j :: 0 <= i < j < |p.elems| && p.elems[j] == ".." ==> p.elems[i] == "..")
  }

  /** One element of the normalisation: `acc` is the cleaned result so far. */
  function Step(acc: seq<string>, e: string, rooted: bool): seq<string>
  {
    if e == "" || e == "." then acc
    else if e == ".." then
      if |acc| > 0 && acc[|acc| - 1] != ".." then acc[..|acc| - 1]
      else if rooted then acc
      else acc + [".."]
    else acc + [e]
  }

  /** Normalise the pieces `segs`, left to right, onto `acc`. */
  function Lex(acc: seq<string>, segs: seq<string>, rooted: bool): seq<string>
    decreases |segs|
  {
    if segs == [] then acc else Lex(Step(acc, segs[0], rooted), segs[1..], rooted)
  }

  /** The normalised reading of a path string. */
  function Parse(s: string): (p: Path)
    ensures Normal(p)
    ensures p.rooted <==> IsAbs(s)
  {
    if s == [] then Path(false, [])
    else
      var rooted := s[0] == '/';
      LexNormal([], Split(s, '/'), rooted);
      Path(rooted, Lex([], Split(s, '/'), rooted))
  }

  /** The string of a path: "/" for the root, "." for the empty relative path. */
  function Render(p: Path): string
  {
    if p.rooted then "/" + Join(p.elems, "/")
    else if p.elems == [] then "."
    else Join(p.elems, "/")
  }

  /** filepath.Clean: the shortest lexically equivalent path; reading it back gives the same path. */
  function Clean(s: string): (r: string)
    ensures r != []
    ensures Parse(r) == Parse(s)
    ensures IsAbs(r) <==> IsAbs(s)
  {
    ParseRender(Parse(s));
    Render(Parse(s))
  }

  /** filepath.Join of two elements: the non-empty ones joined by '/', then cleaned; "" when both are empty. */
  function JoinPath(a: string, b: string): string
  {
    if a == [] && b == [] then []
    else if a == [] then Clean(b)
    else Clean(a + "/" + b)
  }

  /** The number of leading elements `a` and `b` share. */
  function CommonPrefixLen(a: seq<string>, b: seq<string>): (k: nat)
    ensures k <= |a| && k <= |b| && a[..k] == b[..k]
    ensures k < |a| && k < |b| ==> a[k] != b[k]
  {
    if a == [] || b == [] || a[0] != b[0] then 0
    else
      var k := 1 + CommonPrefixLen(a[1..], b[1..]);
      assert a[..k] == [a[0]] + a[1..][..k - 1];
      assert b[..k] == [b[0]] + b[1..][..k - 1];
      k
  }

  function Repeat(e: string, n: nat): (r: seq<string>)
    ensures |r| == n && forall i :: 0 <= i < n ==> r[i] == e
  {
    if n == 0 then [] else [e] + Repeat(e, n - 1)
  }

  /**
   * filepath.Rel: a path that, joined to `basepath`, reaches `targpath`; None when there is none
   * lexically (one path rooted and the other not, or the base would have to climb out of a "..").
   */
  function Rel(basepath: string, targpath: string): Option<string>
  {
    var base, targ := Clean(basepath), Clean(targpath);
    if targ == base then Some(".")
    else
      var b, t := Parse(basepath), Parse(targpath);
      if b.rooted != t.rooted then None
      else
        // a relative target that cleans to "." keeps "." as its one element
        var te := if !t.rooted && t.elems == [] then ["."] else t.elems;
        var k := CommonPrefixLen(b.elems, te);
        if k < |b.elems| && b.elems[k] == ".." then None
        else if k < |b.elems| then Some(Join(Repeat("..", |b.elems| - k) + te[k..], "/"))
        else Some(Join(te[k..], "/"))
  }

  function TrimTrailingSlashes(s: string): (r: string)
    ensures |r| <= |s| && r == s[..|r|]
    ensures r == [] || r[|r| - 1] != '/'
  {
    if s != [] && s[|s| - 1] == '/' then TrimTrailingSlashes(s[..|s| - 1]) else s
  }

  function AfterLastSlash(s: string): (r: string)
    ensures '/' !in r
  {
    if s == [] || s[|s| - 1] == '/' then [] else AfterLastSlash(s[..|s| - 1]) + [s[|s| - 1]]
  }

  /** filepath.Base: the last element, "/" for a path of slashes only, "." for the empty path. */
  function Base(s: string): string
  {
    if s == [] then "."
    else
      var t := TrimTrailingSlashes(s);
      if t == [] then "/" else AfterLastSlash(t)
  }

  /** `c` is `base` itself or lies below it, element by element. */
  predicate Within(base: string, c: string)
  {
    var b, p := Parse(base), Parse(c);
    b.rooted == p.rooted && |b.elems| <= |p.elems| && p.elems[..|b.elems|] == b.elems
  }

  // ---------------------------------------------------------------------------------------
  // Lemmas about the normalisation

  lemma {:induction false} LexNormal(acc: seq<string>, segs: seq<string>, rooted: bool)
    requires Normal(Path(rooted, acc))
    requires forall i :: 0 <= i < |segs| ==> '/' !in segs[i]
    ensures Normal(Path(rooted, Lex(acc, segs, rooted)))
    decreases |segs|
  {
    if segs != [] {
      var e := segs[0];
      var next := Step(acc, e, rooted);
      if e == ".." && !(|acc| > 0 && acc[|acc| - 1] != "..") && !rooted {
        forall i | 0 <= i < |acc| ensures acc[i] == ".." {
          if acc[|acc| - 1] != ".." { assert false; }
        }
      }
      assert Normal(Path(rooted, next));
      LexNormal(next, segs[1..], rooted);
    }
  }

  lemma {:induction false} LexAppend(acc: seq<string>, xs: seq<string>, ys: seq<string>, rooted: bool)
    ensures Lex(acc, xs + ys, rooted) == Lex(Lex(acc, xs, rooted), ys, rooted)
    decreases |xs|
  {
    if xs == [] {
      assert xs + ys == ys;
    } else {
      assert (xs + ys)[0] == xs[0] && (xs + ys)[1..] == xs[1..] + ys;
      LexAppend(Step(acc, xs[0], rooted), xs[1..], ys, rooted);
    }
  }

  /** Normalising elements that are already normal changes nothing. */
  lemma {:induction false} LexOfNormal(acc: seq<string>, es: seq<string>, rooted: bool)
    requires Normal(Path(rooted, acc + es))
    ensures Lex(acc, es, rooted) == acc + es
    decreases |es|
  {
    if es != [] {
      var all := acc + es;
      assert all[|acc|] == es[0];
      if es[0] == ".." {
        assert !rooted;
        forall i | 0 <= i < |acc| ensures acc[i] == ".." {
          assert all[i] == acc[i];
        }
      }
      assert Step(acc, es[0], rooted) == acc + [es[0]];
      assert (acc + [es[0]]) + es[1..] == all;
      LexOfNormal(acc + [es[0]], es[1..], rooted);
    }
  }

  /** Round trip: reading back the string of a normal path gives the path itself. */
  lemma ParseRender(p: Path)
    requires Normal(p)
    ensures Parse(Render(p)) == p
  {
    if p.rooted {
      ParseRenderRooted(p);
    } else if p.elems == [] {
      SplitNoSeparator(".", '/');
    } else {
      ParseRenderRelative(p);
    }
  }

  lemma ParseRenderRooted(p: Path)
    requires Normal(p) && p.rooted
    ensures Parse(Render(p)) == p
  {
    var s := Render(p);
    var j := Join(p.elems, "/");
    SplitAppend([], '/', j);
    assert s == [] + ['/'] + j;
    if p.elems == [] {
      var segs: seq<string> := [[], []];
      assert Split(s, '/') == segs;
      var rest: seq<string> := [[]];
      assert segs[1..] == rest && rest[1..] == [];
      assert Lex([], segs, true) == [];
    } else {
      JoinSplitNormal(p);
      var segs := [[]] + p.elems;
      assert Split(s, '/') == segs;
      assert segs[0] == [] && segs[1..] == p.elems;
      assert Lex([], segs, true) == Lex([], p.elems, true);
    }
  }

  lemma ParseRenderRelative(p: Path)
    requires Normal(p) && !p.rooted && p.elems != []
    ensures Parse(Render(p)) == p
  {
    JoinSplitNormal(p);
    JoinFirst(p.elems, "/");
    assert Render(p)[0] == p.elems[0][0];
  }

  /** The elements of a normal path split back out of their '/'-join and are already normal. */
  lemma JoinSplitNormal(p: Path)
    requires Normal(p) && p.elems != []
    ensures Split(Join(p.elems, "/"), '/') == p.elems
    ensures Lex([], p.elems, p.rooted) == p.elems
  {
    assert p.elems == [] + p.elems;
    SplitJoin(p.elems, '/');
    LexOfNormal([], p.elems, p.rooted);
  }

  /** Clean is idempotent. */
  lemma CleanIdempotent(s: string)
    ensures Clean(Clean(s)) == Clean(s)
  {
  }

  /** Two paths clean to the same string exactly when they read as the same path. */
  lemma CleanEqual(a: string, b: string)
    ensures Clean(a) == Clean(b) <==> Parse(a) == Parse(b)
  {
  }

  /** Joining onto a rooted base continues the normalisation of the base's elements with the pieces of `p`. */
  lemma JoinOntoRooted(base: string, p: string)
    requires IsAbs(base)
    ensures Parse(JoinPath(base, p)) == Path(true, Lex(Parse(base).elems, Split(p, '/'), true))
  {
    var s := base + "/" + p;
    assert s == base + ['/'] + p;
    SplitAppend(base, '/', p);
    LexAppend([], Split(base, '/'), Split(p, '/'), true);
  }

  /** A leading '/' on the second element makes no difference to Join: it is still taken relative to the first. */
  lemma JoinIgnoresLeadingSlash(base: string, p: string)
    requires IsAbs(base)
    ensures JoinPath(base, "/" + p) == JoinPath(base, p)
  {
    JoinOntoRooted(base, "/" + p);
    JoinOntoRooted(base, p);
    SplitAppend([], '/', p);
    assert "/" + p == [] + ['/'] + p;
    assert Split("/" + p, '/') == [[]] + Split(p, '/');
    assert Step(Parse(base).elems, [], true) == Parse(base).elems;
    assert Parse(JoinPath(base, "/" + p)) == Parse(JoinPath(base, p));
  }

  /** Without a ".." piece, normalising onto `acc` only appends to it. */
  lemma {:induction false} LexWithoutDotDotExtends(acc: seq<string>, segs: seq<string>, rooted: bool)
    requires forall i :: 0 <= i < |segs| ==> segs[i] != ".."
    ensures |acc| <= |Lex(acc, segs, rooted)| && Lex(acc, segs, rooted)[..|acc|] == acc
    decreases |segs|
  {
    if segs != [] {
      var next := Step(acc, segs[0], rooted);
      LexWithoutDotDotExtends(next, segs[1..], rooted);
    }
  }

  /** Only ".." pieces can lead Join out of a rooted base. */
  lemma JoinWithoutDotDotStaysWithin(base: string, p: string)
    requires IsAbs(base)
    requires forall i :: 0 <= i < |Split(p, '/')| ==> Split(p, '/')[i] != ".."
    ensures Within(base, JoinPath(base, p))
  {
    JoinOntoRooted(base, p);
    LexWithoutDotDotExtends(Parse(base).elems, Split(p, '/'), true);
  }

  // ---------------------------------------------------------------------------------------
  // Lemmas about Rel and Base

  lemma JoinStartsWithDotDot(xs: seq<string>)
    requires |xs| >= 1 && IsElem(xs[0])
    ensures HasPrefix(Join(xs, "/"), "..") <==> HasPrefix(xs[0], "..")
  {
    JoinFirst(xs, "/");
    var j := Join(xs, "/");
    if |xs[0]| == 1 {
      assert xs[0] != ".";
      assert j[0] == xs[0][0];
      assert xs[0][0] != '.';
    } else {
      assert j[..2] == xs[0][..2];
    }
  }

  /**
   * The containment test of the download route, `Rel` failing or giving a path that starts
   * with the two bytes "..", for a rooted base and a rooted candidate: it passes exactly when
   * the candidate is the base itself, or lies below it and its first element below the base
   * does not start with "..".
   */
  lemma RelGuard(base: string, c: string)
    requires IsAbs(base) && IsAbs(c)
    ensures var b, p := Parse(base).elems, Parse(c).elems;
      (match Rel(base, c) case None => false case Some(r) => !HasPrefix(r, ".."))
      <==> (p == b || (|b| < |p| && p[..|b|] == b && !HasPrefix(p[|b|], "..")))
  {
    var b, p := Parse(base).elems, Parse(c).elems;
    CleanEqual(base, c);
    if Clean(c) != Clean(base) {
      var k := CommonPrefixLen(b, p);
      if k < |b| {
        var r := Repeat("..", |b| - k) + p[k..];
        assert r[0] == "..";
        JoinStartsWithDotDot(r);
        assert HasPrefix(r[0], "..");
        assert k < |p| ==> p[k] != b[k];
        assert |b| <= |p| ==> p[..|b|][k] == p[k];
      } else {
        assert p[..|b|] == b;
        assert p != b;
        JoinStartsWithDotDot(p[k..]);
      }
    }
  }

  /** The containment test passing means the candidate is the base or lies below it. */
  lemma RelGuardWithin(base: string, c: string)
    requires IsAbs(base) && IsAbs(c)
    requires match Rel(base, c) case None => false case Some(r) => !HasPrefix(r, "..")
    ensures Within(base, c)
  {
    RelGuard(base, c);
  }

  lemma {:induction false} AfterLastSlashAppend(x: string, e: string)
    requires '/' !in e
    ensures AfterLastSlash(x + "/" + e) == e
    decreases |e|
  {
    var s := x + "/" + e;
    if e == [] {
      assert s[|s| - 1] == '/';
    } else {
      assert s[..|s| - 1] == x + "/" + e[..|e| - 1];
      AfterLastSlashAppend(x, e[..|e| - 1]);
      assert e[..|e| - 1] + [e[|e| - 1]] == e;
    }
  }

  lemma {:induction false} AfterLastSlashWhole(e: string)
    requires '/' !in e
    ensures AfterLastSlash(e) == e
    decreases |e|
  {
    if e != [] {
      AfterLastSlashWhole(e[..|e| - 1]);
      assert e[..|e| - 1] + [e[|e| - 1]] == e;
    }
  }

  lemma BaseOfElem(e: string)
    requires IsElem(e)
    ensures Base(e) == e
  {
    assert TrimTrailingSlashes(e) == e;
    AfterLastSlashWhole(e);
  }

  lemma BaseAfterSlash(x: string, e: string)
    requires IsElem(e)
    ensures Base(x + "/" + e) == e
  {
    var s := x + "/" + e;
    assert s[|s| - 1] == e[|e| - 1];
    assert TrimTrailingSlashes(s) == s;
    AfterLastSlashAppend(x, e);
  }

  lemma BaseOfRenderNonEmpty(p: Path)
    requires Normal(p) && p.elems != []
    ensures Base(Render(p)) == p.elems[|p.elems| - 1]
  {
    var n := |p.elems|;
    var last := p.elems[n - 1];
    var c := Render(p);
    assert IsElem(last);
    if n == 1 {
      assert Join(p.elems, "/") == last;
      if p.rooted {
        assert c == [] + "/" + last;
        BaseAfterSlash([], last);
      } else {
        BaseOfElem(last);
      }
    } else {
      var init := Join(p.elems[..n - 1], "/");
      JoinAppend(p.elems[..n - 1], [last], "/");
      assert p.elems[..n - 1] + [last] == p.elems;
      if p.rooted {
        assert c == ("/" + init) + "/" + last;
        BaseAfterSlash("/" + init, last);
      } else {
        assert c == init + "/" + last;
        BaseAfterSlash(init, last);
      }
    }
  }

  /** The base name of a cleaned path is its last element ("/" for the root, "." for the empty path). */
  lemma BaseOfClean(s: string)
    ensures var p := Parse(s);
      Base(Clean(s)) == if p.elems != [] then p.elems[|p.elems| - 1] else if p.rooted then "/" else "."
  {
    var p := Parse(s);
    if p.elems != [] {
      BaseOfRenderNonEmpty(p);
    } else if p.rooted {
      assert Render(p) == "/";
      assert TrimTrailingSlashes("/") == TrimTrailingSlashes([]);
    } else {
      assert Render(p) == ".";
      assert AfterLastSlash(".") == AfterLastSlash([]) + ".";
    }
  }

  /** A rooted path that is Within a rooted base is the base itself or starts with the base and a '/'. */
  lemma WithinAsString(base: string, c: string)
    requires IsAbs(base) && IsAbs(c) && Within(base, c)
    ensures Clean(c) == Clean(base) || HasPrefix(Clean(c), if Clean(base) == "/" then "/" else Clean(base) + "/")
  {
    var b, p := Parse(base).elems, Parse(c).elems;
    if p != b {
      var rest := p[|b|..];
      assert p == b + rest;
      if b != [] {
        JoinAppend(b, rest, "/");
        assert Clean(c) == (Clean(base) + "/") + Join(rest, "/");
      }
    } else {
      CleanEqual(base, c);
    }
  }
}

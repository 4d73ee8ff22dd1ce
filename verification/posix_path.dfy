/**
 * The POSIX flavour of Node's `path` module, as far as the import resolver and
 * the import rewriter use it: `normalize`, `dirname`, `join` of two paths and
 * `relative`. Paths are strings; the separator is always '/'.
 */
module PosixPath {
  import opened Segments

  predicate IsAbsolute(p: string) {
    |p| > 0 && p[0] == Sep
  }

  /** A segment that normalization keeps as it is: not empty, not "." or "..". */
  predicate NormalSeg(x: string) {
    x != "" && x != "." && x != ".." && NoSep(x)
  }

  predicate NormalSegs(xs: seq<string>) {
    forall i :: 0 <= i < |xs| ==> NormalSeg(xs[i])
  }

  /**
   * The segment stacks normalization can produce: no empty or "." segment, and
   * ".." only as a leading run, and only when the path may climb above its start.
   */
  predicate Stack(st: seq<string>, allowAboveRoot: bool) {
    forall i :: 0 <= i < |st| ==>
      && st[i] != "" && st[i] != "." && NoSep(st[i])
      && (st[i] == ".." ==> allowAboveRoot && forall j :: 0 <= j < i ==> st[j] == "..")
  }

  function Repeat(x: string, n: nat): (r: seq<string>)
    ensures |r| == n
    ensures forall i :: 0 <= i < n ==> r[i] == x
  {
    if n == 0 then [] else [x] + Repeat(x, n - 1)
  }

  /**
   * One step of Node's `normalizeString`: read segment `seg` onto the stack.
   * ".." pops a real segment; with nothing to pop it is kept only when the
   * path is relative.
   */
  function Push(stack: seq<string>, seg: string, allowAboveRoot: bool): seq<string>
  {
    if seg == "" || seg == "." then stack
    else if seg == ".." then
      if |stack| > 0 && Last(stack) != ".." then stack[..|stack| - 1]
      else if allowAboveRoot then stack + [".."]
      else stack
    else stack + [seg]
  }

  /** `normalizeString`: every segment read in order onto the stack. */
  function Fold(stack: seq<string>, segs: seq<string>, allowAboveRoot: bool): seq<string>
    decreases |segs|
  {
    if |segs| == 0 then stack
    else Fold(Push(stack, segs[0], allowAboveRoot), segs[1..], allowAboveRoot)
  }

  /** A stack written out, with an optional leading and trailing '/'. */
  function Render(st: seq<string>, absolute: bool, trailing: bool): string
  {
    (if absolute then "/" else "") + Join(st) + (if trailing then "/" else "")
  }

  /** `path.normalize`. */
  function Normalize(p: string): string
  {
    if |p| == 0 then "."
    else
      var absolute := p[0] == Sep;
      var trailing := p[|p| - 1] == Sep;
      var st := Fold([], Split(p), !absolute);
      if |st| == 0 then (if absolute then "/" else if trailing then "./" else ".")
      else Render(st, absolute, trailing)
  }

  /** The absolute path whose segments are `segs`; the root "/" when there are none. */
  function AbsPath(segs: seq<string>): string
  {
    "/" + Join(segs)
  }

  /**
   * The scan of Node's `dirname` from position `i` down to 1: the index of the
   * first '/' met after at least one non-'/' character, or -1.
   */
  function DirnameEnd(p: string, i: int, matchedSlash: bool): (r: int)
    requires i < |p|
    ensures r == -1 || 1 <= r <= i
    decreases i
  {
    if i < 1 then -1
    else if p[i] == Sep then (if !matchedSlash then i else DirnameEnd(p, i - 1, true))
    else DirnameEnd(p, i - 1, false)
  }

  /** `path.dirname`. */
  function Dirname(p: string): string
  {
    if |p| == 0 then "."
    else
      var end := DirnameEnd(p, |p| - 1, true);
      if end == -1 then (if p[0] == Sep then "/" else ".")
      else if p[0] == Sep && end == 1 then "//"
      else p[..end]
  }

  /** `path.join(a, b)`: the non-empty arguments glued with '/', then normalized. */
  function JoinPaths(a: string, b: string): string
  {
    if a == "" && b == "" then "."
    else if a == "" then Normalize(b)
    else if b == "" then Normalize(a)
    else Normalize(a + "/" + b)
  }

  /**
   * `path.resolve(p)` as a segment list: a relative `p` is read on top of the
   * working directory `cwd`, given as the segments of an absolute path.
   */
  function ResolveSegs(cwd: seq<string>, p: string): seq<string>
  {
    Fold(if IsAbsolute(p) then [] else cwd, Split(p), false)
  }

  /** The length of the longest common prefix of `a` and `b`. */
  function CommonPrefix(a: seq<string>, b: seq<string>): (c: nat)
    ensures c <= |a| && c <= |b|
    ensures a[..c] == b[..c]
    ensures c < |a| && c < |b| ==> a[c] != b[c]
  {
    if |a| == 0 || |b| == 0 || a[0] != b[0] then 0
    else
      var c' := CommonPrefix(a[1..], b[1..]);
      assert a[..c' + 1] == [a[0]] + a[1..][..c'];
      assert b[..c' + 1] == [b[0]] + b[1..][..c'];
      c' + 1
  }

  /**
   * The segments of the relative path between two resolved paths: one ".."
   * for each segment of `from` past their common prefix, then the rest of `to`.
   */
  function RelativeSegs(from: seq<string>, to: seq<string>): seq<string>
  {
    var c := CommonPrefix(from, to);
    Repeat("..", |from| - c) + to[c..]
  }

  /**
   * `path.relative(from, to)`: both paths resolved against `cwd`, then the
   * relative segments between them joined with '/'.
   */
  function Relative(cwd: seq<string>, from: string, to: string): string
  {
    if from == to then ""
    else
      var f := ResolveSegs(cwd, from);
      var t := ResolveSegs(cwd, to);
      if Join(f) == Join(t) then ""
      else Join(RelativeSegs(f, t))
  }

  // ---------------------------------------------------------------------------
  // Normalization

  lemma {:induction false} FoldAppend(st: seq<string>, a: seq<string>, b: seq<string>, allow: bool)
    ensures Fold(st, a + b, allow) == Fold(Fold(st, a, allow), b, allow)
    decreases |a|
  {
    if |a| == 0 {
      assert a + b == b;
    } else {
      assert (a + b)[1..] == a[1..] + b;
      FoldAppend(Push(st, a[0], allow), a[1..], b, allow);
    }
  }

  /** Reading a valid stack's own segments back onto its prefix rebuilds it. */
  lemma {:induction false} FoldRebuildsStack(st: seq<string>, i: nat, allow: bool)
    requires Stack(st, allow)
    requires i <= |st|
    ensures Fold(st[..i], st[i..], allow) == st
    decreases |st| - i
  {
    if i < |st| {
      assert Push(st[..i], st[i], allow) == st[..i + 1] by {
        if st[i] == ".." {
          assert i == 0 || Last(st[..i]) == "..";
        }
      }
      assert st[i..][1..] == st[i + 1..];
      FoldRebuildsStack(st, i + 1, allow);
    } else {
      assert st[..i] == st;
    }
  }

  /** Reading plain names pushes each of them. */
  lemma {:induction false} FoldNames(st: seq<string>, names: seq<string>, allow: bool)
    requires NormalSegs(names)
    ensures Fold(st, names, allow) == st + names
    decreases |names|
  {
    if |names| > 0 {
      FoldNames(st + [names[0]], names[1..], allow);
      assert st + [names[0]] + names[1..] == st + names;
    }
  }

  /** Each ".." read onto a stack of plain names pops one of them. */
  lemma {:induction false} FoldUps(st: seq<string>, k: nat, allow: bool)
    requires NormalSegs(st)
    requires k <= |st|
    ensures Fold(st, Repeat("..", k), allow) == st[..|st| - k]
    decreases k
  {
    if k > 0 {
      var st' := st[..|st| - 1];
      assert Push(st, "..", allow) == st';
      assert Repeat("..", k)[1..] == Repeat("..", k - 1);
      FoldUps(st', k - 1, allow);
      assert st'[..|st'| - (k - 1)] == st[..|st| - k];
    }
  }

  /** Normalization only ever builds valid stacks. */
  lemma {:induction false} FoldKeepsStack(st: seq<string>, segs: seq<string>, allow: bool)
    requires Stack(st, allow)
    requires AllNoSep(segs)
    ensures Stack(Fold(st, segs, allow), allow)
    decreases |segs|
  {
    if |segs| > 0 {
      var st' := Push(st, segs[0], allow);
      assert Stack(st', allow) by {
        if segs[0] == ".." && !(|st| > 0 && Last(st) != "..") && allow {
          forall i | 0 <= i < |st'|
            ensures st'[i] == ".." ==> forall j :: 0 <= j < i ==> st'[j] == ".."
          {
            if i == |st| {
              forall j | 0 <= j < i ensures st'[j] == ".." {
                assert st[|st| - 1] == "..";
              }
            }
          }
        }
      }
      assert AllNoSep(segs[1..]) by {
        forall i | 0 <= i < |segs| - 1 ensures NoSep(segs[1..][i]) {
          assert segs[1..][i] == segs[i + 1];
        }
      }
      FoldKeepsStack(st', segs[1..], allow);
    }
  }

  lemma NamesAreStack(names: seq<string>, allow: bool)
    requires NormalSegs(names)
    ensures Stack(names, allow)
  {
  }

  lemma JoinNonEmpty(segs: seq<string>)
    requires |segs| >= 1 && segs[0] != ""
    ensures Join(segs) != ""
    ensures Join(segs)[0] == segs[0][0]
  {
  }

  /** The segments of a rendered stack. */
  lemma SplitRender(st: seq<string>, absolute: bool, trailing: bool)
    requires |st| >= 1
    requires AllNoSep(st)
    ensures Split(Render(st, absolute, trailing))
         == (if absolute then [""] else []) + st + (if trailing then [""] else [])
  {
    var body := Join(st) + (if trailing then "/" else "");
    assert Split(body) == st + (if trailing then [""] else []) by {
      SplitJoin(st);
      if trailing {
        SplitAroundSep(Join(st), "");
        assert Join(st) + "/" == Join(st) + [Sep] + "";
      } else {
        assert body == Join(st);
      }
    }
    if absolute {
      assert Render(st, absolute, trailing) == "/" + body;
      assert ("/" + body)[1..] == body;
    } else {
      assert Render(st, absolute, trailing) == body;
    }
  }

  /**
   * What a specifier in normal form looks like: "." occurs only in "." and
   * "./", an empty segment only at either end (a leading or trailing '/'),
   * and ".." only as a leading run of a relative path.
   */
  ghost predicate NormalShape(p: string) {
    var segs := Split(p);
    forall i :: 0 <= i < |segs| ==>
      && (segs[i] == "." ==> p == "." || p == "./")
      && (segs[i] == "" ==> i == 0 || i == |segs| - 1)
      && (segs[i] == ".." ==> !IsAbsolute(p) && forall j :: 0 <= j < i ==> segs[j] == "..")
  }

  lemma NormalFormShape(p: string)
    requires Normalize(p) == p
    ensures p != ""
    ensures NormalShape(p)
  {
    var absolute := p[0] == Sep;
    var trailing := p[|p| - 1] == Sep;
    SplitSegmentsNoSep(p);
    var st := Fold([], Split(p), !absolute);
    FoldKeepsStack([], Split(p), !absolute);
    if |st| == 0 {
      assert p == "/" || p == "./" || p == ".";
      EmptyStackShape(p);
    } else {
      assert p == Render(st, absolute, trailing);
      RenderedShape(p, st, absolute, trailing);
    }
  }

  /** The three spellings of an empty stack. */
  lemma EmptyStackShape(p: string)
    requires p == "/" || p == "./" || p == "."
    ensures NormalShape(p)
  {
    if p == "/" {
      assert Split(p) == [""] + Split("");
    } else if p == "./" {
      assert p[1..] == "/";
      RootSplit();
      assert Split(p) == [['.'] + ""] + [""];
    } else {
      assert Split(p) == [['.'] + ""];
    }
  }

  /** A non-empty stack written out has the normal shape. */
  lemma RenderedShape(p: string, st: seq<string>, absolute: bool, trailing: bool)
    requires |st| >= 1
    requires Stack(st, !absolute)
    requires p == Render(st, absolute, trailing)
    requires absolute == IsAbsolute(p)
    ensures NormalShape(p)
  {
    assert AllNoSep(st);
    SplitRender(st, absolute, trailing);
    var segs := Split(p);
    var off := if absolute then 1 else 0;
    forall i | 0 <= i < |segs|
      ensures && (segs[i] == "." ==> p == "." || p == "./")
              && (segs[i] == "" ==> i == 0 || i == |segs| - 1)
              && (segs[i] == ".." ==> !IsAbsolute(p) && forall j :: 0 <= j < i ==> segs[j] == "..")
    {
      if off <= i < off + |st| {
        assert segs[i] == st[i - off];
        if segs[i] == ".." {
          assert !absolute;
          forall j | 0 <= j < i ensures segs[j] == ".." {
            assert segs[j] == st[j];
          }
        }
      }
    }
  }

  /**
   * The converse: every valid stack, written out with or without a trailing
   * '/', is in normal form, so leading ".." segments survive normalization.
   */
  lemma {:induction false} RenderIsNormal(st: seq<string>, absolute: bool, trailing: bool)
    requires |st| >= 1
    requires Stack(st, !absolute)
    ensures Normalize(Render(st, absolute, trailing)) == Render(st, absolute, trailing)
  {
    var p := Render(st, absolute, trailing);
    assert AllNoSep(st);
    SplitRender(st, absolute, trailing);
    assert st[0] != "";
    JoinNonEmpty(st);
    assert p[0] == Sep <==> absolute;
    TrailingSepIffEmptyLast(p);
    assert p[|p| - 1] == Sep <==> trailing;
    var segs := Split(p);
    var pre: seq<string> := if absolute then [""] else [];
    var post: seq<string> := if trailing then [""] else [];
    assert segs == pre + st + post;
    FoldAppend([], pre + st, post, !absolute);
    FoldAppend([], pre, st, !absolute);
    assert Fold([], pre, !absolute) == [];
    FoldRebuildsStack(st, 0, !absolute);
    assert st[..0] == [] && st[0..] == st;
    assert Fold([], segs, !absolute) == st;
  }

  /** The three spellings of an empty stack are in normal form. */
  lemma EmptyStackIsNormal(p: string)
    requires p == "/" || p == "./" || p == "."
    ensures Normalize(p) == p
  {
    if p == "/" {
      RootSplit();
    } else if p == "./" {
      assert Split(p) == [".", ""] by {
        assert p[1..] == "/";
        RootSplit();
        assert Split(p) == [['.'] + ""] + [""];
        assert ['.'] + "" == ".";
      }
      var segs: seq<string> := [".", ""];
      assert segs[1..] == [""] && segs[1..][1..] == [];
      assert Fold([], segs, true) == Fold([], [""], true) == [];
    } else {
      assert Split(p) == [['.'] + ""];
      var segs: seq<string> := ["."];
      assert segs[1..] == [];
      assert Fold([], segs, true) == [];
    }
  }

  /**
   * `normalize` is idempotent: whatever it returns passes the resolver's
   * "already normalized" test.
   */
  lemma NormalizeIdempotent(p: string)
    ensures Normalize(Normalize(p)) == Normalize(p)
  {
    if |p| == 0 {
      EmptyStackIsNormal(".");
    } else {
      var absolute := p[0] == Sep;
      var trailing := p[|p| - 1] == Sep;
      SplitSegmentsNoSep(p);
      FoldKeepsStack([], Split(p), !absolute);
      var st := Fold([], Split(p), !absolute);
      if |st| == 0 {
        EmptyStackIsNormal(Normalize(p));
      } else {
        assert Normalize(p) == Render(st, absolute, trailing);
        RenderIsNormal(st, absolute, trailing);
      }
    }
  }

  lemma RootSplit()
    ensures Split("/") == ["", ""]
    ensures Fold([], Split("/"), false) == []
  {
    assert Split("/") == [""] + Split("");
    assert Fold([], ["", ""], false) == Fold([], [""], false);
  }

  /** An absolute path made of plain names is in normal form. */
  lemma AbsPathIsNormal(segs: seq<string>)
    requires NormalSegs(segs)
    ensures Normalize(AbsPath(segs)) == AbsPath(segs)
  {
    if |segs| == 0 {
      assert AbsPath(segs) == "/";
      RootSplit();
    } else {
      NamesAreStack(segs, false);
      RenderIsNormal(segs, true, false);
      assert AbsPath(segs) == Render(segs, true, false);
    }
  }

  /** The segments of an absolute path made of plain names. */
  lemma SplitAbsPath(segs: seq<string>)
    requires NormalSegs(segs)
    ensures Split(AbsPath(segs)) == (if |segs| == 0 then ["", ""] else [""] + segs)
  {
    if |segs| == 0 {
      assert Split("/") == [""] + Split("");
    } else {
      SplitRender(segs, true, false);
      assert AbsPath(segs) == Render(segs, true, false);
    }
  }

  /** Normalizing an absolute path yields its segments with the empty ones read away. */
  lemma FoldAbsPath(cwd: seq<string>, segs: seq<string>)
    requires NormalSegs(segs)
    ensures ResolveSegs(cwd, AbsPath(segs)) == segs
  {
    SplitAbsPath(segs);
    if |segs| == 0 {
      RootSplit();
    } else {
      FoldNames(Push([], "", false), segs, false);
    }
  }

  // ---------------------------------------------------------------------------
  // dirname

  /** The `dirname` scan stops at the '/' before the last name. */
  lemma {:induction false} DirnameEndAtSep(p: string, k: nat, i: int, m: bool)
    requires k < i < |p|
    requires p[k] == Sep
    requires forall j :: k < j <= i ==> p[j] != Sep
    ensures DirnameEnd(p, i, m) == (if k >= 1 then k else -1)
    decreases i
  {
    if i - 1 > k {
      DirnameEndAtSep(p, k, i - 1, false);
    }
  }

  /** The directory of `a/b`, for a name `b`, is `a` (unless `a` is the root). */
  lemma {:induction false} DirnameOfChild(a: string, b: string)
    requires |a| >= 1 && a != "/"
    requires |b| >= 1 && NoSep(b)
    ensures Dirname(a + "/" + b) == a
  {
    var p := a + "/" + b;
    assert p[|a|] == Sep;
    assert forall j :: |a| < j <= |p| - 1 ==> p[j] == b[j - |a| - 1];
    DirnameEndAtSep(p, |a|, |p| - 1, true);
    assert p[..|a|] == a;
  }

  /** The directory of a top-level name `/b` is the root. */
  lemma DirnameOfTopLevel(b: string)
    requires |b| >= 1 && NoSep(b)
    ensures Dirname("/" + b) == "/"
  {
    var p := "/" + b;
    assert forall j :: 0 < j <= |p| - 1 ==> p[j] == b[j - 1];
    DirnameEndAtSep(p, 0, |p| - 1, true);
  }

  /** The directory of an absolute path of names drops its last name. */
  lemma DirnameAbsPath(segs: seq<string>)
    requires |segs| >= 1 && NormalSegs(segs)
    ensures Dirname(AbsPath(segs)) == AbsPath(segs[..|segs| - 1])
  {
    var n := |segs|;
    if n == 1 {
      assert AbsPath(segs) == "/" + segs[0];
      DirnameOfTopLevel(segs[0]);
      assert segs[..0] == [];
    } else {
      var init := segs[..n - 1];
      JoinAppend(init, [segs[n - 1]]);
      assert init + [segs[n - 1]] == segs;
      JoinNonEmpty(init);
      assert AbsPath(segs) == AbsPath(init) + "/" + segs[n - 1];
      DirnameOfChild(AbsPath(init), segs[n - 1]);
    }
  }

  // ---------------------------------------------------------------------------
  // join and relative

  /**
   * Joining a relative path of segments `rel` onto an absolute path of names
   * reads those segments onto its stack; a leading "./" changes nothing.
   */
  lemma {:induction false} JoinOntoAbsPath(base: seq<string>, rel: seq<string>, dotted: bool)
    requires NormalSegs(base)
    requires |rel| >= 1 && AllNoSep(rel) && rel[0] != "" && Last(rel) != ""
    ensures JoinPaths(AbsPath(base), (if dotted then "./" else "") + Join(rel))
         == AbsPath(Fold(base, rel, false))
  {
    var a := AbsPath(base);
    var x := (if dotted then "./" else "") + Join(rel);
    var xs: seq<string> := if dotted then ["."] + rel else rel;
    JoinNonEmpty(rel);
    SplitRelative(rel, dotted);
    SplitAroundSep(a, x);
    var segs := Split(a) + xs;
    assert Last(segs) == Last(rel) by {
      LastOfAppend(Split(a), xs);
    }
    NormalizeAbsolute(a + [Sep] + x, segs);
    FoldAbsThen(base, xs);
    assert Fold(base, xs, false) == Fold(base, rel, false) by {
      if dotted {
        assert xs[1..] == rel;
      }
    }
    assert a + "/" + x == a + [Sep] + x;
  }

  lemma {:induction false} LastOfAppend<T>(u: seq<T>, v: seq<T>)
    requires |v| >= 1
    ensures Last(u + v) == Last(v)
  {
  }

  lemma {:induction false} SplitRelative(rel: seq<string>, dotted: bool)
    requires |rel| >= 1 && AllNoSep(rel)
    ensures Split((if dotted then "./" else "") + Join(rel)) == (if dotted then ["."] + rel else rel)
  {
    SplitJoin(rel);
    if dotted {
      var j := Join(rel);
      assert "./" + j == "." + [Sep] + j;
      SplitAroundSep(".", j);
      assert NoSep(".");
      SplitNoSep(".");
      assert Split("./" + j) == ["."] + rel;
    } else {
      assert "" + Join(rel) == Join(rel);
    }
  }

  /** Reading an absolute path of names, then more segments. */
  lemma {:induction false} FoldAbsThen(base: seq<string>, xs: seq<string>)
    requires NormalSegs(base)
    ensures Fold([], Split(AbsPath(base)) + xs, false) == Fold(base, xs, false)
  {
    SplitAbsPath(base);
    var segs := Split(AbsPath(base)) + xs;
    if |base| == 0 {
      var tail := [""] + xs;
      assert segs == [""] + tail;
      assert segs[0] == "" && segs[1..] == tail;
      assert Fold([], segs, false) == Fold([], tail, false);
      assert tail[0] == "" && tail[1..] == xs;
      assert Fold([], tail, false) == Fold([], xs, false);
    } else {
      assert segs == [""] + (base + xs);
      assert segs[0] == "" && segs[1..] == base + xs;
      assert Fold([], segs, false) == Fold([], base + xs, false);
      FoldAppend([], base, xs, false);
      FoldNames([], base, false);
      assert [] + base == base;
    }
  }

  /** An absolute path whose last segment is not empty normalizes to its stack, written out. */
  lemma {:induction false} NormalizeAbsolute(p: string, segs: seq<string>)
    requires |p| >= 1 && p[0] == Sep
    requires Split(p) == segs && Last(segs) != ""
    ensures Normalize(p) == AbsPath(Fold([], segs, false))
  {
    TrailingSepIffEmptyLast(p);
  }

  /** Reading the relative segments onto `from` lands on `to`. */
  lemma {:induction false} RelativeSegsRoundTrip(from: seq<string>, to: seq<string>)
    requires NormalSegs(from) && NormalSegs(to)
    ensures Fold(from, RelativeSegs(from, to), false) == to
  {
    var c := CommonPrefix(from, to);
    var ups := Repeat("..", |from| - c);
    var rest := to[c..];
    assert RelativeSegs(from, to) == ups + rest;
    FoldAppend(from, ups, rest, false);
    UpsReachCommonPrefix(from, to);
    assert NormalSegs(rest);
    FoldNames(to[..c], rest, false);
    assert to[..c] + rest == to;
  }

  /** The ".." steps of a relative path climb from `from` to the common prefix with `to`. */
  lemma UpsReachCommonPrefix(from: seq<string>, to: seq<string>)
    requires NormalSegs(from)
    ensures var c := CommonPrefix(from, to);
      Fold(from, Repeat("..", |from| - c), false) == to[..c]
  {
    var c := CommonPrefix(from, to);
    FoldUps(from, |from| - c, false);
    assert |from| - (|from| - c) == c;
    assert from[..c] == to[..c];
  }

  /** Between two different absolute paths, `relative` climbs to the common prefix and descends. */
  lemma RelativeOfAbsPaths(cwd: seq<string>, from: seq<string>, to: seq<string>)
    requires NormalSegs(from) && NormalSegs(to) && from != to
    ensures Relative(cwd, AbsPath(from), AbsPath(to)) == Join(RelativeSegs(from, to))
  {
    AbsPathInjective(from, to);
    FoldAbsPath(cwd, from);
    FoldAbsPath(cwd, to);
    assert Join(from) != Join(to) by {
      assert AbsPath(from) == "/" + Join(from) && AbsPath(to) == "/" + Join(to);
    }
  }

  /** The segments of the relative path between two different paths: some, none empty, none with a '/'. */
  lemma RelativeSegsWellFormed(from: seq<string>, to: seq<string>)
    requires NormalSegs(from) && NormalSegs(to) && from != to
    ensures var rel := RelativeSegs(from, to);
      |rel| >= 1 && rel[0] != "" && Last(rel) != "" && AllNoSep(rel)
  {
    var c := CommonPrefix(from, to);
    var rel := RelativeSegs(from, to);
    assert rel == Repeat("..", |from| - c) + to[c..];
    assert |rel| >= 1 by {
      assert c == |from| ==> from[..c] == from;
      assert c == |to| ==> to[..c] == to;
    }
    var k := |from| - c;
    forall i | 0 <= i < |rel|
      ensures rel[i] == ".." || rel[i] == to[c + i - k]
    {
      if i >= k {
        assert rel[i] == to[c..][i - k];
      }
    }
  }

  /** The relative segments, written out (behind "./" or not) and joined onto `from`, lead to `to`. */
  lemma DottedRelativeRoundTrip(from: seq<string>, to: seq<string>, dotted: bool)
    requires NormalSegs(from) && NormalSegs(to) && from != to
    ensures JoinPaths(AbsPath(from), (if dotted then "./" else "") + Join(RelativeSegs(from, to))) == AbsPath(to)
  {
    var rel := RelativeSegs(from, to);
    RelativeSegsWellFormed(from, to);
    JoinOntoAbsPath(from, rel, dotted);
    RelativeSegsRoundTrip(from, to);
  }

  /**
   * The relative path from `from` to `to`, joined back onto `from`, is `to`
   * (both absolute and made of plain names).
   */
  lemma {:induction false} RelativeRoundTrip(cwd: seq<string>, from: seq<string>, to: seq<string>)
    requires NormalSegs(from) && NormalSegs(to)
    ensures JoinPaths(AbsPath(from), Relative(cwd, AbsPath(from), AbsPath(to))) == AbsPath(to)
  {
    if from == to {
      assert Relative(cwd, AbsPath(from), AbsPath(to)) == "";
      AbsPathIsNormal(from);
      assert JoinPaths(AbsPath(from), "") == Normalize(AbsPath(from));
    } else {
      var rel := RelativeSegs(from, to);
      RelativeOfAbsPaths(cwd, from, to);
      DottedRelativeRoundTrip(from, to, false);
      assert "" + Join(rel) == Join(rel);
    }
  }

  /** `normalize` never returns the empty string, so neither does `join`. */
  lemma NormalizeNeverEmpty(p: string)
    ensures Normalize(p) != ""
    ensures forall a :: JoinPaths(a, p) != ""
  {
    NormalizeNonEmpty(p);
    forall a ensures JoinPaths(a, p) != "" {
      NormalizeNonEmpty(a);
      NormalizeNonEmpty(a + "/" + p);
    }
  }

  lemma NormalizeNonEmpty(q: string)
    ensures Normalize(q) != ""
  {
    if |q| > 0 {
      var absolute := q[0] == Sep;
      var trailing := q[|q| - 1] == Sep;
      SplitSegmentsNoSep(q);
      FoldKeepsStack([], Split(q), !absolute);
      var st := Fold([], Split(q), !absolute);
      if |st| > 0 {
        JoinNonEmpty(st);
        assert Normalize(q) == Render(st, absolute, trailing);
        assert |Render(st, absolute, trailing)| >= |Join(st)|;
      }
    }
  }

  /** Distinct lists of names make distinct absolute paths. */
  lemma AbsPathInjective(x: seq<string>, y: seq<string>)
    requires NormalSegs(x) && NormalSegs(y)
    ensures AbsPath(x) == AbsPath(y) <==> x == y
  {
    SplitAbsPath(x);
    SplitAbsPath(y);
    assert |x| > 0 ==> ([""] + x)[1..] == x && ([""] + x)[1] == x[0];
    assert |y| > 0 ==> ([""] + y)[1..] == y && ([""] + y)[1] == y[0];
  }

  /** The prefixes of the segments of an absolute path join to its ancestors. */
  lemma JoinAbsPrefix(x: seq<string>, i: nat)
    requires 1 <= i <= |x|
    ensures Join(([""] + x)[..i + 1]) == AbsPath(x[..i])
  {
    assert ([""] + x)[..i + 1] == [""] + x[..i];
    assert ([""] + x[..i])[1..] == x[..i];
  }

  /** Joining names onto an absolute path of names appends them. */
  lemma {:induction false} JoinNamesOntoAbsPath(base: seq<string>, names: seq<string>)
    requires NormalSegs(base) && NormalSegs(names) && |names| >= 1
    ensures JoinPaths(AbsPath(base), Join(names)) == AbsPath(base + names)
  {
    JoinOntoAbsPath(base, names, false);
    assert "" + Join(names) == Join(names);
    FoldNames(base, names, false);
  }

  /** A relative list of names is in normal form. */
  lemma {:induction false} NamesAreNormal(names: seq<string>)
    requires NormalSegs(names) && |names| >= 1
    ensures Normalize(Join(names)) == Join(names)
  {
    NamesAreStack(names, true);
    RenderIsNormal(names, false, false);
    assert Render(names, false, false) == Join(names);
  }
}

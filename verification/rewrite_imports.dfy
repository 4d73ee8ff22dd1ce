/**
 * The import rewriter of transpile/src/rewriteImports.ts: every static
 * import, every re-export with a specifier and every dynamic `import()` call
 * gets its specifier replaced by a "./"-prefixed path, relative to the
 * containing file's directory, ending in ".js".
 *
 * The TypeScript AST is modelled by `Node`, a tagged tree that keeps the
 * three import-like shapes apart and lumps every other node into `Other`.
 */
module RewriteImports {
  import opened Wrappers
  import opened Segments
  import opened PosixPath
  import opened Util

  /** Why the transform ends by throwing, or does not end, instead of returning a tree. */
  datatype Abort =
    | StatFailed(path: string)  // `resolveImport` threw from `fs.statSync`
    | Hangs                     // `resolveImport` never returns
    | MissingArgument           // `import()` with no argument: `arguments[0]` is undefined

  /** JavaScript's `substring(start, end)`: both bounds clamped to the string, then ordered. */
  function Substring(s: string, start: int, end: int): (r: string)
    ensures |r| <= |s|
  {
    var a := if start < 0 then 0 else if start > |s| then |s| else start;
    var b := if end < 0 then 0 else if end > |s| then |s| else end;
    if a <= b then s[a..b] else s[b..a]
  }

  /** `.replace(/\\/gi, "/")`: every backslash becomes a '/'. */
  function ReplaceBackslashes(s: string): (r: string)
    ensures |r| == |s|
    ensures forall i :: 0 <= i < |s| ==> r[i] == (if s[i] == '\\' then '/' else s[i])
  {
    if |s| == 0 then ""
    else [if s[0] == '\\' then '/' else s[0]] + ReplaceBackslashes(s[1..])
  }

  /** The specifier inside a quoted literal: its source text less the first and last characters. */
  function Unquote(quoted: string): (r: string)
    ensures |quoted| >= 2 ==> r == quoted[1..|quoted| - 1]
  {
    Substring(quoted, 1, |quoted| - 1)
  }

  /**
   * The string steps of `rewriteImportPath` after `path.relative`: "./" in
   * front, then the last three characters cut off and ".js" put on.
   */
  function DotSlashJs(rel: string): (r: string)
  {
    var rewritten := "./" + rel;
    Substring(rewritten, 0, |rewritten| - 3) + ".js"
  }

  /**
   * The result always ends in ".js"; it starts with "./" exactly when the
   * relative path has at least three characters, and then it is that path
   * with its last three characters swapped for ".js".
   */
  lemma DotSlashJsShape(rel: string)
    ensures var r := DotSlashJs(rel);
      && |r| >= 3 && r[|r| - 3..] == ".js"
      && (|r| >= 2 && r[..2] == "./" <==> |rel| >= 3)
      && (|rel| >= 3 ==> r == "./" + rel[..|rel| - 3] + ".js")
  {
    var rewritten := "./" + rel;
    var r := DotSlashJs(rel);
    if |rel| >= 3 {
      assert Substring(rewritten, 0, |rewritten| - 3) == rewritten[..|rewritten| - 3];
      assert rewritten[..|rewritten| - 3] == "./" + rel[..|rel| - 3];
    } else if |rel| == 2 {
      assert Substring(rewritten, 0, |rewritten| - 3) == ".";
      assert r == "..js";
      assert r[1] == '.';
    } else {
      assert Substring(rewritten, 0, |rewritten| - 3) == "";
      assert r == ".js";
      assert r[1] == 'j';
    }
  }

  /**
   * The tail of `rewriteImportPath`: the path from the containing file's
   * directory to `modulePath`, behind "./", with its last three characters
   * replaced by ".js".
   */
  function RewrittenPath(cwd: seq<string>, containingFile: string, modulePath: string): (r: string)
    ensures |r| >= 3 && r[|r| - 3..] == ".js"
    ensures var rel := ReplaceBackslashes(Relative(cwd, Dirname(containingFile), modulePath));
      && (|r| >= 2 && r[..2] == "./" <==> |rel| >= 3)
      && (|rel| >= 3 ==> r == "./" + rel[..|rel| - 3] + ".js")
  {
    var rel := ReplaceBackslashes(Relative(cwd, Dirname(containingFile), modulePath));
    DotSlashJsShape(rel);
    DotSlashJs(rel)
  }

  /**
   * `rewriteImportPath`. When resolution gives `null` the raw specifier
   * stands in for the target; only a thrown stat error or a walk that never
   * ends keeps it from producing a path.
   */
  function RewriteImportPath(modules: set<string>, fs: Snapshot, cwd: seq<string>, importPath: string, containingFile: string): (r: Result<string, Abort>)
    ensures var res := ResolveImport(modules, fs, importPath, containingFile);
      && (r.Success? <==> !res.StatThrows? && !res.NeverReturns?)
      && (res.StatThrows? ==> r == Failure(StatFailed(res.path)))
      && (res.NeverReturns? ==> r == Failure(Hangs))
  {
    var res := ResolveImport(modules, fs, importPath, containingFile);
    if res.StatThrows? then Failure(StatFailed(res.path))
    else if res.NeverReturns? then Failure(Hangs)
    else Success(RewrittenPath(cwd, containingFile, ResolvedOr(res, importPath)))
  }

  // ---------------------------------------------------------------------------
  // The rewritten path denotes the resolved target

  predicate NoBackslash(x: string) {
    '\\' !in x
  }

  lemma ReplaceBackslashesIdentity(s: string)
    requires NoBackslash(s)
    ensures ReplaceBackslashes(s) == s
  {
  }

  lemma {:induction false} JoinNoBackslash(segs: seq<string>)
    requires forall i :: 0 <= i < |segs| ==> NoBackslash(segs[i])
    ensures NoBackslash(Join(segs))
  {
    if |segs| > 1 {
      JoinNoBackslash(segs[1..]);
    }
  }

  /**
   * The segments of the relative path from a directory to a target that is
   * neither that directory nor one of its ancestors: ".." steps, then names of
   * the target, ending with the target's own name.
   */
  lemma {:induction false} RelativeSegsShape(dir: seq<string>, target: seq<string>)
    requires NormalSegs(dir) && NormalSegs(target) && |target| >= 1
    requires !(target <= dir)
    ensures var c := CommonPrefix(dir, target);
      var rel := RelativeSegs(dir, target);
      && c < |target| && |rel| >= 1 && Last(rel) == Last(target)
      && (forall i :: 0 <= i < |rel| ==> rel[i] == ".." || rel[i] == target[i - (|dir| - c) + c])
  {
    var c := CommonPrefix(dir, target);
    assert target[..c] <= dir;
    LastOfAppend(Repeat("..", |dir| - c), target[c..]);
  }

  /**
   * When the relative path is a join of backslash-free segments whose last one
   * ends in ".ts", the rewrite only puts "./" in front and swaps the extension.
   */
  lemma RewrittenFromSegs(cwd: seq<string>, containingFile: string, modulePath: string, relSegs: seq<string>)
    requires |relSegs| >= 1
    requires Relative(cwd, Dirname(containingFile), modulePath) == Join(relSegs)
    requires forall i :: 0 <= i < |relSegs| ==> NoBackslash(relSegs[i])
    requires |Last(relSegs)| >= 3 && Last(relSegs)[|Last(relSegs)| - 3..] == ".ts"
    ensures var s := RewrittenPath(cwd, containingFile, modulePath);
      && |s| >= 5 && s[..2] == "./"
      && s[..|s| - 3] + ".ts" == "./" + Join(relSegs)
  {
    var rel := Join(relSegs);
    JoinNoBackslash(relSegs);
    ReplaceBackslashesIdentity(rel);
    JoinEndsWithTs(relSegs);
    SwapExtension(rel);
    assert RewrittenPath(cwd, containingFile, modulePath) == DotSlashJs(rel);
  }

  /** A joined path ends in ".ts" when its last segment does. */
  lemma {:induction false} JoinEndsWithTs(segs: seq<string>)
    requires |segs| >= 1
    requires |Last(segs)| >= 3 && Last(segs)[|Last(segs)| - 3..] == ".ts"
    ensures var j := Join(segs); |j| >= 3 && j[|j| - 3..] == ".ts"
  {
    var j := Join(segs);
    var l := Last(segs);
    JoinEndsWithLast(segs);
    assert j[|j| - 3..] == j[|j| - |l|..][|l| - 3..];
  }

  /** For a path ending in ".ts", the rewrite is "./" plus the path with ".js" for ".ts". */
  lemma SwapExtension(rel: string)
    requires |rel| >= 3 && rel[|rel| - 3..] == ".ts"
    ensures var s := DotSlashJs(rel);
      && |s| >= 5 && s[..2] == "./"
      && s[..|s| - 3] + ".ts" == "./" + rel
  {
    DotSlashJsShape(rel);
    var s := DotSlashJs(rel);
    assert s == "./" + rel[..|rel| - 3] + ".js";
    assert s[..|s| - 3] == "./" + rel[..|rel| - 3];
    assert rel == rel[..|rel| - 3] + ".ts";
  }

  /**
   * Round trip: the rewritten specifier, with ".js" put back to ".ts" and
   * read as a plain relative path from the containing file's directory,
   * names the resolved target. This needs a target name ending in ".ts",
   * no backslash in the target's names (the rewrite turns them into '/'),
   * and a target that is not the containing directory or one of its
   * ancestors, which a file never is.
   */
  lemma RewrittenPathDenotesTarget(cwd: seq<string>, file: seq<string>, target: seq<string>)
    requires NormalSegs(file) && |file| >= 1
    requires NormalSegs(target) && |target| >= 1
    requires forall i :: 0 <= i < |target| ==> NoBackslash(target[i])
    requires |Last(target)| >= 3 && Last(target)[|Last(target)| - 3..] == ".ts"
    requires !(target <= file[..|file| - 1])
    ensures var s := RewrittenPath(cwd, AbsPath(file), AbsPath(target));
      && |s| >= 5 && s[..2] == "./"
      && JoinPaths(Dirname(AbsPath(file)), s[..|s| - 3] + ".ts") == AbsPath(target)
  {
    var dir := file[..|file| - 1];
    assert NormalSegs(dir);
    assert dir != target;
    DirnameAbsPath(file);
    var relSegs := RelativeSegs(dir, target);
    RelativeOfAbsPaths(cwd, dir, target);
    RelativeSegsBackslashFree(dir, target);
    RewrittenFromSegs(cwd, AbsPath(file), AbsPath(target), relSegs);
    DottedRelativeRoundTrip(dir, target, true);
  }

  /** The relative segments to a target without backslashes have none either, and end with the target's name. */
  lemma RelativeSegsBackslashFree(dir: seq<string>, target: seq<string>)
    requires NormalSegs(dir) && NormalSegs(target) && |target| >= 1
    requires !(target <= dir)
    requires forall i :: 0 <= i < |target| ==> NoBackslash(target[i])
    ensures var rel := RelativeSegs(dir, target);
      && |rel| >= 1 && Last(rel) == Last(target)
      && (forall i :: 0 <= i < |rel| ==> NoBackslash(rel[i]))
  {
    RelativeSegsShape(dir, target);
  }

  // ---------------------------------------------------------------------------
  // The syntax tree and the visitor

  /**
   * The part of the TypeScript syntax tree the transformer looks at. Every
   * parsed node keeps its source text (`getText`); `CreatedLiteral` is the
   * string literal the transformer puts in place of a specifier.
   */
  datatype Node =
    | ImportDeclaration(text: string, importClause: seq<Node>, moduleSpecifier: Node)
    | ExportDeclaration(text: string, exportClause: seq<Node>, reexportFrom: Option<Node>)
    | CallExpression(text: string, expression: Node, arguments: seq<Node>)
    | ImportKeyword(text: string)
    | Other(text: string, children: seq<Node>)
    | CreatedLiteral(value: string)

  /** `getText`: the source text of a parsed node; a created literal prints as its value in double quotes. */
  function GetText(n: Node): string {
    if n.CreatedLiteral? then "\"" + n.value + "\"" else n.text
  }

  /** `isStaticImport`: an import declaration, or an export declaration that has a module specifier. */
  predicate IsStaticImport(n: Node) {
    n.ImportDeclaration? || (n.ExportDeclaration? && n.reexportFrom.Some?)
  }

  /** `isDynamicImport`: a call whose callee is the `import` keyword. */
  predicate IsDynamicImport(n: Node) {
    n.CallExpression? && n.expression.ImportKeyword?
  }

  function StaticSpecifier(n: Node): Node
    requires IsStaticImport(n)
  {
    if n.ImportDeclaration? then n.moduleSpecifier else n.reexportFrom.value
  }

  /** The clone of a static import whose specifier is a new literal. */
  function WithStaticSpecifier(n: Node, path: string): (m: Node)
    requires IsStaticImport(n)
    ensures IsStaticImport(m) && StaticSpecifier(m) == CreatedLiteral(path)
  {
    if n.ImportDeclaration? then n.(moduleSpecifier := CreatedLiteral(path))
    else n.(reexportFrom := Some(CreatedLiteral(path)))
  }

  /**
   * The visitor is parameterised by what it does to one specifier: in the
   * transformer that is `rewriteImportPath` for the file being visited.
   */
  type Rewriter = string -> Result<string, Abort>

  /** The rewrite of the specifier written at node `spec`: its text less the quotes. */
  function RewriteSpecifier(rw: Rewriter, spec: Node): Result<string, Abort> {
    rw(Unquote(GetText(spec)))
  }

  /**
   * The transformer closure: an import-like node gets its specifier replaced
   * (and is not descended into); every other node has its children visited.
   * A dynamic import keeps only the rewritten first argument.
   */
  function Visit(rw: Rewriter, n: Node): Result<Node, Abort>
    decreases n, 1
  {
    if IsStaticImport(n) then
      match RewriteSpecifier(rw, StaticSpecifier(n))
      case Failure(e) => Failure(e)
      case Success(p) => Success(WithStaticSpecifier(n, p))
    else if IsDynamicImport(n) then
      if |n.arguments| == 0 then Failure(MissingArgument)
      else
        match RewriteSpecifier(rw, n.arguments[0])
        case Failure(e) => Failure(e)
        case Success(p) => Success(n.(arguments := [CreatedLiteral(p)]))
    else VisitEachChild(rw, n)
  }

  /** `ts.visitEachChild`: the node rebuilt from its visited children, left to right; the first abort wins. */
  function VisitEachChild(rw: Rewriter, n: Node): Result<Node, Abort>
    decreases n, 0
  {
    match n
    case ImportDeclaration(t, clause, spec) =>
      (match VisitAll(rw, clause)
       case Failure(e) => Failure(e)
       case Success(clause') =>
         match Visit(rw, spec)
         case Failure(e) => Failure(e)
         case Success(spec') => Success(ImportDeclaration(t, clause', spec')))
    case ExportDeclaration(t, clause, from) =>
      (match VisitAll(rw, clause)
       case Failure(e) => Failure(e)
       case Success(clause') =>
         match from
         case None => Success(ExportDeclaration(t, clause', None))
         case Some(spec) =>
           match Visit(rw, spec)
           case Failure(e) => Failure(e)
           case Success(spec') => Success(ExportDeclaration(t, clause', Some(spec'))))
    case CallExpression(t, callee, args) =>
      (match Visit(rw, callee)
       case Failure(e) => Failure(e)
       case Success(callee') =>
         match VisitAll(rw, args)
         case Failure(e) => Failure(e)
         case Success(args') => Success(CallExpression(t, callee', args')))
    case ImportKeyword(_) => Success(n)
    case Other(t, cs) =>
      (match VisitAll(rw, cs)
       case Failure(e) => Failure(e)
       case Success(cs') => Success(Other(t, cs')))
    case CreatedLiteral(_) => Success(n)
  }

  function VisitAll(rw: Rewriter, cs: seq<Node>): Result<seq<Node>, Abort>
    decreases cs
  {
    if |cs| == 0 then Success([])
    else
      match Visit(rw, cs[0])
      case Failure(e) => Failure(e)
      case Success(c) =>
        match VisitAll(rw, cs[1..])
        case Failure(e) => Failure(e)
        case Success(rest) => Success([c] + rest)
  }

  // ---------------------------------------------------------------------------
  // A reference reading of the visitor: the import sites in source order, and
  // the tree with every specifier blanked out

  /** An import-like site: the node holding its specifier, or a dynamic import with no argument. */
  datatype Site = Specifier(node: Node) | NoArgument

  /** The import sites of `n` in source order; the visitor does not look inside a site. */
  function Sites(n: Node): seq<Site>
    decreases n, 1
  {
    if IsStaticImport(n) then [Specifier(StaticSpecifier(n))]
    else if IsDynamicImport(n) then
      if |n.arguments| == 0 then [NoArgument] else [Specifier(n.arguments[0])]
    else ChildSites(n)
  }

  function ChildSites(n: Node): seq<Site>
    decreases n, 0
  {
    match n
    case ImportDeclaration(_, clause, spec) => AllSites(clause) + Sites(spec)
    case ExportDeclaration(_, clause, from) =>
      AllSites(clause) + (match from case None => [] case Some(spec) => Sites(spec))
    case CallExpression(_, callee, args) => Sites(callee) + AllSites(args)
    case ImportKeyword(_) => []
    case Other(_, cs) => AllSites(cs)
    case CreatedLiteral(_) => []
  }

  function AllSites(cs: seq<Node>): seq<Site>
    decreases cs
  {
    if |cs| == 0 then [] else Sites(cs[0]) + AllSites(cs[1..])
  }

  const Hole: Node := CreatedLiteral("")

  /**
   * The tree with the specifier of every import site replaced by `Hole`; a
   * dynamic import keeps one argument, the hole.
   */
  function Skeleton(n: Node): Node
    decreases n, 1
  {
    if IsStaticImport(n) then WithStaticSpecifier(n, "")
    else if IsDynamicImport(n) && |n.arguments| >= 1 then n.(arguments := [Hole])
    else ChildSkeleton(n)
  }

  function ChildSkeleton(n: Node): Node
    decreases n, 0
  {
    match n
    case ImportDeclaration(t, clause, spec) => ImportDeclaration(t, AllSkeletons(clause), Skeleton(spec))
    case ExportDeclaration(t, clause, from) =>
      ExportDeclaration(t, AllSkeletons(clause), match from case None => None case Some(spec) => Some(Skeleton(spec)))
    case CallExpression(t, callee, args) => CallExpression(t, Skeleton(callee), AllSkeletons(args))
    case ImportKeyword(_) => n
    case Other(t, cs) => Other(t, AllSkeletons(cs))
    case CreatedLiteral(_) => n
  }

  function AllSkeletons(cs: seq<Node>): seq<Node>
    decreases cs
  {
    if |cs| == 0 then [] else [Skeleton(cs[0])] + AllSkeletons(cs[1..])
  }

  /**
   * Every dynamic import among the sites of `n` has exactly one argument: the
   * visitor replaces the whole argument list of `import()` with the rewritten
   * specifier, dropping any further arguments.
   */
  predicate OneArgumentImports(n: Node)
    decreases n, 1
  {
    if IsStaticImport(n) then true
    else if IsDynamicImport(n) then |n.arguments| == 1
    else ChildOneArgumentImports(n)
  }

  predicate ChildOneArgumentImports(n: Node)
    decreases n, 0
  {
    match n
    case ImportDeclaration(_, clause, spec) => AllOneArgumentImports(clause) && OneArgumentImports(spec)
    case ExportDeclaration(_, clause, from) =>
      AllOneArgumentImports(clause) && (match from case None => true case Some(spec) => OneArgumentImports(spec))
    case CallExpression(_, callee, args) => OneArgumentImports(callee) && AllOneArgumentImports(args)
    case ImportKeyword(_) => true
    case Other(_, cs) => AllOneArgumentImports(cs)
    case CreatedLiteral(_) => true
  }

  predicate AllOneArgumentImports(cs: seq<Node>)
    decreases cs
  {
    |cs| == 0 || (OneArgumentImports(cs[0]) && AllOneArgumentImports(cs[1..]))
  }

  function RewriteSite(rw: Rewriter, site: Site): Result<string, Abort> {
    match site
    case Specifier(spec) => RewriteSpecifier(rw, spec)
    case NoArgument => Failure(MissingArgument)
  }

  /** Two runs one after the other: the first abort, or both lists of paths. */
  function Then(x: Result<seq<string>, Abort>, y: Result<seq<string>, Abort>): Result<seq<string>, Abort> {
    if x.Failure? then Failure(x.error)
    else if y.Failure? then Failure(y.error)
    else Success(x.value + y.value)
  }

  function Single(x: Result<string, Abort>): Result<seq<string>, Abort> {
    if x.Failure? then Failure(x.error) else Success([x.value])
  }

  /** The sites rewritten one after another; the first abort ends the run. */
  function RewriteAll(rw: Rewriter, sites: seq<Site>): Result<seq<string>, Abort> {
    if |sites| == 0 then Success([])
    else Then(Single(RewriteSite(rw, sites[0])), RewriteAll(rw, sites[1..]))
  }

  /** The sites of a tree whose specifiers are the created literals `ps`. */
  function Literals(ps: seq<string>): (r: seq<Site>)
    ensures |r| == |ps|
    ensures forall i :: 0 <= i < |ps| ==> r[i] == Specifier(CreatedLiteral(ps[i]))
  {
    seq(|ps|, i requires 0 <= i < |ps| => Specifier(CreatedLiteral(ps[i])))
  }

  lemma ThenAssociative(x: Result<seq<string>, Abort>, y: Result<seq<string>, Abort>, z: Result<seq<string>, Abort>)
    ensures Then(Then(x, y), z) == Then(x, Then(y, z))
  {
    if x.Success? && y.Success? && z.Success? {
      assert x.value + y.value + z.value == x.value + (y.value + z.value);
    }
  }

  lemma {:induction false} RewriteAllAppend(rw: Rewriter, a: seq<Site>, b: seq<Site>)
    ensures RewriteAll(rw, a + b) == Then(RewriteAll(rw, a), RewriteAll(rw, b))
  {
    if |a| == 0 {
      assert a + b == b;
      var rest := RewriteAll(rw, b);
      assert rest.Success? ==> [] + rest.value == rest.value;
    } else {
      assert (a + b)[0] == a[0];
      assert (a + b)[1..] == a[1..] + b;
      RewriteAllAppend(rw, a[1..], b);
      ThenAssociative(Single(RewriteSite(rw, a[0])), RewriteAll(rw, a[1..]), RewriteAll(rw, b));
    }
  }

  lemma LiteralsAppend(a: seq<string>, b: seq<string>)
    ensures Literals(a + b) == Literals(a) + Literals(b)
  {
  }

  /** The node kinds the visitor tells apart. */
  predicate SameShape(a: Node, b: Node) {
    && IsStaticImport(a) == IsStaticImport(b)
    && IsDynamicImport(a) == IsDynamicImport(b)
    && a.ImportKeyword? == b.ImportKeyword?
  }

  /** `VisitAll` agrees with rewriting the sites of the list in order. */
  predicate AgreesAll(rw: Rewriter, cs: seq<Node>, r: Result<seq<Node>, Abort>) {
    var ps := RewriteAll(rw, AllSites(cs));
    && (ps.Failure? ==> r == Failure(ps.error))
    && (ps.Success? ==> r.Success? && AllSites(r.value) == Literals(ps.value) && AllSkeletons(r.value) == AllSkeletons(cs)
                        && AllOneArgumentImports(r.value))
  }

  /** `Visit` agrees with rewriting the sites of `n` in order. */
  predicate Agrees(rw: Rewriter, n: Node, r: Result<Node, Abort>) {
    var ps := RewriteAll(rw, Sites(n));
    && (ps.Failure? ==> r == Failure(ps.error))
    && (ps.Success? ==> r.Success? && Sites(r.value) == Literals(ps.value)
                        && Skeleton(r.value) == Skeleton(n) && SameShape(r.value, n)
                        && OneArgumentImports(r.value))
  }

  /** `VisitEachChild` agrees with rewriting the sites below `n` in order. */
  predicate AgreesBelow(rw: Rewriter, n: Node, r: Result<Node, Abort>) {
    var ps := RewriteAll(rw, ChildSites(n));
    && (ps.Failure? ==> r == Failure(ps.error))
    && (ps.Success? ==> r.Success? && ChildSites(r.value) == Literals(ps.value)
                        && ChildSkeleton(r.value) == ChildSkeleton(n) && SameShape(r.value, n)
                        && ChildOneArgumentImports(r.value))
  }

  lemma RewriteOne(rw: Rewriter, site: Site)
    ensures RewriteAll(rw, [site]) == Single(RewriteSite(rw, site))
  {
    assert [site][1..] == [];
    var x := RewriteSite(rw, site);
    assert x.Success? ==> [x.value] + [] == [x.value];
  }

  lemma {:induction false} VisitAgrees(rw: Rewriter, n: Node)
    ensures Agrees(rw, n, Visit(rw, n))
    decreases n, 1
  {
    if IsStaticImport(n) {
      var site := Specifier(StaticSpecifier(n));
      RewriteOne(rw, site);
      var x := RewriteSpecifier(rw, StaticSpecifier(n));
      if x.Success? {
        var m := WithStaticSpecifier(n, x.value);
        assert Sites(m) == Literals([x.value]);
        assert Skeleton(m) == Skeleton(n);
      }
    } else if IsDynamicImport(n) {
      if |n.arguments| == 0 {
        RewriteOne(rw, NoArgument);
      } else {
        var site := Specifier(n.arguments[0]);
        RewriteOne(rw, site);
        var x := RewriteSpecifier(rw, n.arguments[0]);
        if x.Success? {
          var m := n.(arguments := [CreatedLiteral(x.value)]);
          assert Sites(m) == Literals([x.value]);
          assert Skeleton(m) == Skeleton(n);
        }
      }
    } else {
      VisitEachChildAgrees(rw, n);
    }
  }

  /**
   * For a dynamic import, agreeing with the reference pins the result down:
   * the same call whose argument list is the rewritten specifier alone.
   */
  lemma DynamicImportAgrees(rw: Rewriter, n: Node, r: Result<Node, Abort>)
    requires IsDynamicImport(n) && Agrees(rw, n, r) && r.Success?
    ensures |n.arguments| >= 1 && RewriteSpecifier(rw, n.arguments[0]).Success?
    ensures r.value == n.(arguments := [CreatedLiteral(RewriteSpecifier(rw, n.arguments[0]).value)])
  {
    if |n.arguments| == 0 {
      RewriteOne(rw, NoArgument);
      assert false;
    }
    var site := Specifier(n.arguments[0]);
    RewriteOne(rw, site);
    var m := r.value;
    var x := RewriteSpecifier(rw, n.arguments[0]).value;
    assert IsDynamicImport(m) && |m.arguments| == 1;
    assert Sites(m) == [Specifier(m.arguments[0])] == Literals([x]);
    assert Literals([x])[0] == Specifier(CreatedLiteral(x));
    assert m.arguments[0] == CreatedLiteral(x);
    assert m.arguments == [CreatedLiteral(x)];
    assert m.(arguments := [Hole]) == n.(arguments := [Hole]);
    assert m.text == n.text && m.expression == n.expression;
  }

  lemma {:induction false} VisitEachChildAgrees(rw: Rewriter, n: Node)
    ensures AgreesBelow(rw, n, VisitEachChild(rw, n))
    decreases n, 0
  {
    match n
    case ImportDeclaration(t, clause, spec) =>
      VisitAllAgrees(rw, clause);
      VisitAgrees(rw, spec);
      RewriteAllAppend(rw, AllSites(clause), Sites(spec));
      var pc := RewriteAll(rw, AllSites(clause));
      var px := RewriteAll(rw, Sites(spec));
      if pc.Success? && px.Success? {
        LiteralsAppend(pc.value, px.value);
      }
    case ExportDeclaration(t, clause, from) =>
      VisitAllAgrees(rw, clause);
      var pc := RewriteAll(rw, AllSites(clause));
      match from {
        case None =>
          assert AllSites(clause) + [] == AllSites(clause);
          assert ChildSites(n) == AllSites(clause);
          var r := VisitAll(rw, clause);
          if r.Success? {
            assert AllSites(r.value) + [] == AllSites(r.value);
          }
        case Some(spec) =>
          VisitAgrees(rw, spec);
          RewriteAllAppend(rw, AllSites(clause), Sites(spec));
          var px := RewriteAll(rw, Sites(spec));
          if pc.Success? && px.Success? {
            LiteralsAppend(pc.value, px.value);
          }
      }
    case CallExpression(t, callee, args) =>
      VisitAgrees(rw, callee);
      VisitAllAgrees(rw, args);
      RewriteAllAppend(rw, Sites(callee), AllSites(args));
      var px := RewriteAll(rw, Sites(callee));
      var pa := RewriteAll(rw, AllSites(args));
      if px.Success? && pa.Success? {
        LiteralsAppend(px.value, pa.value);
      }
    case ImportKeyword(_) =>
    case Other(t, cs) =>
      VisitAllAgrees(rw, cs);
    case CreatedLiteral(_) =>
  }

  lemma {:induction false} VisitAllAgrees(rw: Rewriter, cs: seq<Node>)
    ensures AgreesAll(rw, cs, VisitAll(rw, cs))
    decreases cs
  {
    if |cs| > 0 {
      VisitAgrees(rw, cs[0]);
      VisitAllAgrees(rw, cs[1..]);
      RewriteAllAppend(rw, Sites(cs[0]), AllSites(cs[1..]));
      var p0 := RewriteAll(rw, Sites(cs[0]));
      var pr := RewriteAll(rw, AllSites(cs[1..]));
      if p0.Success? && pr.Success? {
        LiteralsAppend(p0.value, pr.value);
        var m0 := Visit(rw, cs[0]).value;
        var ms := VisitAll(rw, cs[1..]).value;
        assert ([m0] + ms)[1..] == ms;
      }
    }
  }

  // ---------------------------------------------------------------------------
  // The transformer of one source file

  /** The specifier rewriter the transformer of `fileName` uses. */
  function FileRewriter(modules: set<string>, fs: Snapshot, cwd: seq<string>, fileName: string): Rewriter {
    importPath => RewriteImportPath(modules, fs, cwd, importPath, fileName)
  }

  /**
   * `createImportsTransformer` applied to one source file: the visitor run
   * from the file's root. It aborts exactly when rewriting the file's import
   * sites in source order aborts, with that abort; otherwise the new tree
   * carries the rewritten paths at its import sites, in order, every
   * `import()` in it has that one argument and no other, and it is the old
   * tree everywhere else.
   */
  function TransformSourceFile(modules: set<string>, fs: Snapshot, cwd: seq<string>, fileName: string, root: Node): (r: Result<Node, Abort>)
    ensures var ps := RewriteAll(FileRewriter(modules, fs, cwd, fileName), Sites(root));
      && (r.Failure? <==> ps.Failure?)
      && (r.Failure? ==> r.error == ps.error)
      && (r.Success? ==> Sites(r.value) == Literals(ps.value) && Skeleton(r.value) == Skeleton(root)
                         && OneArgumentImports(r.value))
  {
    VisitAgrees(FileRewriter(modules, fs, cwd, fileName), root);
    Visit(FileRewriter(modules, fs, cwd, fileName), root)
  }

  /** The specifier of a quoted literal is what stands between the quotes, whichever quote it uses. */
  lemma UnquoteLiteral(q: char, spec: string)
    ensures Unquote([q] + spec + [q]) == spec
  {
  }

  /** A module root followed by a path below it is again a path of plain, backslash-free names. */
  lemma AppendedSegs(owner: seq<string>, names: seq<string>)
    requires NormalSegs(owner) && NormalSegs(names) && |names| >= 1
    requires forall i :: 0 <= i < |owner| ==> NoBackslash(owner[i])
    requires forall i :: 0 <= i < |names| ==> NoBackslash(names[i])
    ensures NormalSegs(owner + names) && Last(owner + names) == Last(names)
    ensures forall i :: 0 <= i < |owner + names| ==> NoBackslash((owner + names)[i])
  {
    var target := owner + names;
    forall i | 0 <= i < |target| ensures NormalSeg(target[i]) && NoBackslash(target[i]) {
      if i >= |owner| {
        assert target[i] == names[i - |owner|];
      } else {
        assert target[i] == owner[i];
      }
    }
    LastOfAppend(owner, names);
  }

  /**
   * End to end for a file import written relative to the module root: the
   * rewritten specifier, read back from the importing file's directory with
   * ".ts" for ".js", is the imported file.
   */
  lemma {:induction false} RewriteResolvedImport(modules: set<string>, fs: Snapshot, cwd: seq<string>, file: seq<string>, owner: seq<string>, names: seq<string>)
    requires NormalSegs(file) && |file| >= 1
    requires NormalSegs(owner) && |owner| >= 1
    requires NormalSegs(names) && |names| >= 1
    requires HasEnclosingRoot(modules, AbsPath(file))
    requires Owner(modules, AbsPath(file)) == AbsPath(owner)
    requires AbsPath(owner + names) in fs && fs[AbsPath(owner + names)] == File
    requires forall j :: 1 <= j < |names| ==> AbsPath(owner + names[..j]) !in modules
    requires forall i :: 0 <= i < |owner| ==> NoBackslash(owner[i])
    requires forall i :: 0 <= i < |names| ==> NoBackslash(names[i])
    requires |Last(names)| >= 3 && Last(names)[|Last(names)| - 3..] == ".ts"
    requires !(owner + names <= file[..|file| - 1])
    ensures var r := RewriteImportPath(modules, fs, cwd, Join(names), AbsPath(file));
      && r.Success? && |r.value| >= 5 && r.value[..2] == "./"
      && JoinPaths(Dirname(AbsPath(file)), r.value[..|r.value| - 3] + ".ts") == AbsPath(owner + names)
  {
    var target := owner + names;
    AppendedSegs(owner, names);
    ResolveNestedPath(modules, fs, AbsPath(file), owner, names);
    var res := ResolveImport(modules, fs, Join(names), AbsPath(file));
    assert res == Resolved(AbsPath(target));
    assert ResolvedOr(res, Join(names)) == AbsPath(target);
    assert RewriteImportPath(modules, fs, cwd, Join(names), AbsPath(file))
        == Success(RewrittenPath(cwd, AbsPath(file), AbsPath(target)));
    RewrittenPathDenotesTarget(cwd, file, target);
  }
}

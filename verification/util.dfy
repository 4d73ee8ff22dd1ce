/**
 * The import resolver of transpile/src/util.ts: `findBasePath` walks up from
 * a file's directory to the nearest registered module root, and
 * `resolveImport` turns a root-relative specifier into the path of the file
 * it names, refusing anything outside the importer's own module.
 *
 * `fs.statSync` is replaced by a snapshot mapping each existing path to its
 * kind, and the source's three ways of ending (a path, `null`, a thrown
 * error) together with the walk that never ends are the cases of `Resolution`.
 */
module Util {
  import opened Wrappers
  import opened Segments
  import opened PosixPath

  /** The reserved file name that marks a directory as a module root. */
  const EntryFile: string := "mod.ts"

  datatype EntryKind = File | Directory

  /** The entries of the file system: each existing path, written without a trailing '/', and its kind. */
  type Snapshot = map<string, EntryKind>

  /**
   * `fs.statSync(p)`: the kind of the entry at `p`, or `None` where it
   * throws. A trailing '/' names the directory before it, so on a directory
   * the call succeeds and on a file it throws (ENOTDIR). The candidates of
   * `resolveImport` are normalized, so they carry at most one trailing '/'.
   */
  function Stat(fs: Snapshot, p: string): Option<EntryKind>
  {
    if |p| >= 2 && p[|p| - 1] == Sep then
      var d := p[..|p| - 1];
      if d in fs && fs[d] == Directory then Some(Directory) else None
    else if p in fs then Some(fs[p])
    else None
  }

  /** An absolute path of names ends in a name, so `statSync` looks it up as written. */
  lemma StatOfAbsPath(fs: Snapshot, x: seq<string>)
    requires NormalSegs(x) && |x| >= 1
    ensures Stat(fs, AbsPath(x)) == if AbsPath(x) in fs then Some(fs[AbsPath(x)]) else None
  {
    var p := AbsPath(x);
    JoinEndsWithLast(x);
    assert p[|p| - 1] == Last(x)[|Last(x)| - 1];
    assert Last(x) == x[|x| - 1] && NormalSeg(x[|x| - 1]);
  }

  /**
   * An absolute path of names followed by '/' stats as a directory when the
   * path names one; a file there, or nothing, makes `statSync` throw.
   */
  lemma StatWithTrailingSep(fs: Snapshot, x: seq<string>)
    requires NormalSegs(x) && |x| >= 1
    ensures Stat(fs, AbsPath(x) + "/") ==
            if AbsPath(x) in fs && fs[AbsPath(x)] == Directory then Some(Directory) else None
  {
  }

  /** Some prefix of `segs` (the empty prefix included) joins to a registered root. */
  predicate SomePrefixRegistered(modules: set<string>, segs: seq<string>) {
    exists k :: 0 <= k <= |segs| && Join(segs[..k]) in modules
  }

  /** `findBasePath(modules, file)` returns, rather than popping forever. */
  predicate HasEnclosingRoot(modules: set<string>, file: string) {
    SomePrefixRegistered(modules, Split(Normalize(Dirname(file))))
  }

  /**
   * How many segments are left when the walk of `findBasePath` stops: the
   * walk tries the whole list, then pops one segment at a time. It is the
   * deepest prefix that is a registered root.
   */
  function RootDepth(modules: set<string>, segs: seq<string>): (k: nat)
    requires SomePrefixRegistered(modules, segs)
    ensures k <= |segs|
    ensures Join(segs[..k]) in modules
    ensures forall j :: k < j <= |segs| ==> Join(segs[..j]) !in modules
    decreases |segs|
  {
    assert segs[..|segs|] == segs;
    if Join(segs) in modules then |segs|
    else
      var shorter := segs[..|segs| - 1];
      assert forall j :: 0 <= j <= |shorter| ==> shorter[..j] == segs[..j];
      RootDepth(modules, shorter)
  }

  /** `findBasePath`: the nearest registered root among the ancestors-or-self of the file's directory. */
  function FindBasePath(modules: set<string>, file: string): (r: string)
    requires HasEnclosingRoot(modules, file)
    ensures r in modules
  {
    var segs := Split(Normalize(Dirname(file)));
    Join(segs[..RootDepth(modules, segs)])
  }

  /** `findBasePath` as the source writes it: a `while (true)` loop that pops a segment per miss. */
  method FindBasePathLoop(modules: set<string>, file: string) returns (r: string)
    requires HasEnclosingRoot(modules, file)
    ensures r in modules
    ensures r == FindBasePath(modules, file)
  {
    var segments := Split(Normalize(Dirname(file)));
    ghost var start := segments;
    ghost var depth := RootDepth(modules, start);
    assert segments == start[..|segments|];
    while Join(segments) !in modules
      invariant depth <= |segments| <= |start|
      invariant segments == start[..|segments|]
      decreases |segments|
    {
      MissIsAboveDepth(modules, start, |segments|);
      segments := Pop(segments);
      assert segments == start[..|segments|];
    }
    HitIsAtDepth(modules, start, |segments|);
    r := Join(segments);
    assert r == Join(start[..depth]);
  }

  /** A candidate that misses is strictly below the nearest root. */
  lemma MissIsAboveDepth(modules: set<string>, segs: seq<string>, n: nat)
    requires SomePrefixRegistered(modules, segs)
    requires n <= |segs| && Join(segs[..n]) !in modules
    ensures n != RootDepth(modules, segs)
  {
  }

  /** The first candidate that hits, walking up from the full list, is the nearest root. */
  lemma HitIsAtDepth(modules: set<string>, segs: seq<string>, n: nat)
    requires SomePrefixRegistered(modules, segs)
    requires RootDepth(modules, segs) <= n <= |segs| && Join(segs[..n]) in modules
    ensures n == RootDepth(modules, segs)
  {
  }

  /** `segments.pop()`: drops the last segment; popping an empty list leaves it empty. */
  function Pop(segs: seq<string>): seq<string>
  {
    if |segs| == 0 then segs else segs[..|segs| - 1]
  }

  /** The segment list after `n` misses of the `findBasePath` loop: `n` pops. */
  function Walk(segs: seq<string>, n: nat): seq<string>
    decreases n
  {
    if n == 0 then segs else Pop(Walk(segs, n - 1))
  }

  /** After `n` pops the list is the prefix `n` segments shorter, or empty once `n` exceeds its length. */
  lemma {:induction false} WalkIsPrefix(segs: seq<string>, n: nat)
    ensures Walk(segs, n) == segs[..if n < |segs| then |segs| - n else 0]
  {
    if n == 0 {
      assert segs[..|segs|] == segs;
    } else {
      WalkIsPrefix(segs, n - 1);
      var k := if n - 1 < |segs| then |segs| - (n - 1) else 0;
      if k > 0 {
        assert segs[..k][..k - 1] == segs[..k - 1];
      }
    }
  }

  /**
   * With no registered prefix, the candidate the loop tries after any number
   * of misses misses again, so the loop never returns.
   */
  lemma NoRootNoExit(modules: set<string>, segs: seq<string>, pops: nat)
    requires !SomePrefixRegistered(modules, segs)
    ensures Join(Walk(segs, pops)) !in modules
  {
    WalkIsPrefix(segs, pops);
    var k := if pops < |segs| then |segs| - pops else 0;
    assert 0 <= k <= |segs|;
  }

  /** The outcome of `resolveImport`. */
  datatype Resolution =
    | Resolved(target: string)  // the path of the imported file
    | NotNormalized             // null: the specifier is not what `path.normalize` makes of it
    | OutsideModule             // null: the candidate's nearest root is not the importer's
    | StatThrows(path: string)  // `fs.statSync` throws: nothing exists at the candidate path
    | NeverReturns              // a `findBasePath` walk finds no registered root and loops forever

  /**
   * `resolveImport(...) || fallback`, and `if (!path) path = fallback`: under
   * JavaScript's truthiness both `null` and "" give way to the fallback.
   */
  function ResolvedOr(r: Resolution, fallback: string): (s: string)
    requires !r.StatThrows? && !r.NeverReturns?
    ensures r.Resolved? && r.target != "" ==> s == r.target
    ensures !r.Resolved? ==> s == fallback
  {
    if r.Resolved? && r.target != "" then r.target else fallback
  }

  /** The root of the importing module. */
  function Owner(modules: set<string>, containingFile: string): string
    requires HasEnclosingRoot(modules, containingFile)
  {
    FindBasePath(modules, containingFile)
  }

  /** The path the specifier names: the specifier joined onto the importer's root. */
  function Candidate(modules: set<string>, importPath: string, containingFile: string): string
    requires HasEnclosingRoot(modules, containingFile)
  {
    JoinPaths(Owner(modules, containingFile), importPath)
  }

  /**
   * `resolveImport`. The separator rewrite of its first line is the identity
   * with '/' as the separator.
   */
  function ResolveImport(modules: set<string>, fs: Snapshot, importPath: string, containingFile: string): (r: Resolution)
    ensures r.NotNormalized? <==> Normalize(importPath) != importPath
    ensures r.NeverReturns? <==>
      && Normalize(importPath) == importPath
      && (|| !HasEnclosingRoot(modules, containingFile)
          || (var c := Candidate(modules, importPath, containingFile);
              Stat(fs, c).Some? && !HasEnclosingRoot(modules, c)))
    ensures r.StatThrows? <==>
      && Normalize(importPath) == importPath
      && HasEnclosingRoot(modules, containingFile)
      && Stat(fs, Candidate(modules, importPath, containingFile)).None?
    ensures r.StatThrows? ==> r.path == Candidate(modules, importPath, containingFile)
    ensures r.OutsideModule? <==>
      && Normalize(importPath) == importPath
      && HasEnclosingRoot(modules, containingFile)
      && var c := Candidate(modules, importPath, containingFile);
      && Stat(fs, c).Some?
      && HasEnclosingRoot(modules, c)
      && FindBasePath(modules, c) != Owner(modules, containingFile)
    ensures r.Resolved? ==>
      && HasEnclosingRoot(modules, containingFile)
      && var c := Candidate(modules, importPath, containingFile);
      && Stat(fs, c).Some?
      && HasEnclosingRoot(modules, c)
      && FindBasePath(modules, c) == Owner(modules, containingFile)
      && r.target == if Stat(fs, c) == Some(Directory) then JoinPaths(c, EntryFile) else c
  {
    if Normalize(importPath) != importPath then NotNormalized
    else if !HasEnclosingRoot(modules, containingFile) then NeverReturns
    else
      var basePath := FindBasePath(modules, containingFile);
      var modulePath := JoinPaths(basePath, importPath);
      var stats := Stat(fs, modulePath);
      if stats.None? then StatThrows(modulePath)
      else if !HasEnclosingRoot(modules, modulePath) then NeverReturns
      else if basePath != FindBasePath(modules, modulePath) then OutsideModule
      else if stats.value == Directory then Resolved(JoinPaths(modulePath, EntryFile))
      else Resolved(modulePath)
  }

  // ---------------------------------------------------------------------------
  // Properties of resolution

  /**
   * A resolved target is never the empty string, so the `||` fallback of the
   * compiler host only ever replaces `null`.
   */
  lemma ResolvedTargetNonEmpty(modules: set<string>, fs: Snapshot, importPath: string, containingFile: string)
    requires ResolveImport(modules, fs, importPath, containingFile).Resolved?
    ensures ResolveImport(modules, fs, importPath, containingFile).target != ""
  {
    NormalizeNeverEmpty(importPath);
    NormalizeNeverEmpty(EntryFile);
  }

  /**
   * A candidate whose own directory is a registered root other than the
   * importer's is refused, e.g. `sub/mod.ts` when `sub` is a sub-module.
   */
  lemma SubmoduleEntryRejected(modules: set<string>, fs: Snapshot, importPath: string, containingFile: string)
    requires Normalize(importPath) == importPath
    requires HasEnclosingRoot(modules, containingFile)
    requires Stat(fs, Candidate(modules, importPath, containingFile)).Some?
    requires Normalize(Dirname(Candidate(modules, importPath, containingFile))) in modules
    requires Normalize(Dirname(Candidate(modules, importPath, containingFile))) != Owner(modules, containingFile)
    ensures ResolveImport(modules, fs, importPath, containingFile) == OutsideModule
  {
    var c := Candidate(modules, importPath, containingFile);
    var d := Normalize(Dirname(c));
    var segs := Split(Normalize(Dirname(c)));
    JoinSplit(d);
    assert segs[..|segs|] == segs;
    assert HasEnclosingRoot(modules, c);
    assert RootDepth(modules, segs) == |segs|;
  }

  /**
   * Walking up from the absolute directory of names `x`, the walk stops at
   * the registered ancestor `x[..m]` exactly when no deeper ancestor-or-self
   * of `x` is registered.
   */
  lemma NearestRootIsAt(modules: set<string>, x: seq<string>, m: nat)
    requires NormalSegs(x) && 1 <= m <= |x|
    requires AbsPath(x[..m]) in modules
    ensures SomePrefixRegistered(modules, [""] + x)
    ensures var segs := [""] + x;
      Join(segs[..RootDepth(modules, segs)]) == AbsPath(x[..m])
      <==> forall i :: m < i <= |x| ==> AbsPath(x[..i]) !in modules
  {
    var segs := [""] + x;
    JoinAbsPrefix(x, m);
    assert SomePrefixRegistered(modules, segs);
    var d := RootDepth(modules, segs);
    assert d >= m + 1;
    JoinAbsPrefix(x, d - 1);
    assert NormalSegs(x[..d - 1]) && NormalSegs(x[..m]);
    AbsPathInjective(x[..d - 1], x[..m]);
    assert x[..d - 1] == x[..m] <==> d - 1 == m;
    forall i | m < i <= |x| ensures Join(segs[..i + 1]) == AbsPath(x[..i]) {
      JoinAbsPrefix(x, i);
    }
  }

  /** The path facts behind `ResolveNestedPath`: the candidate and where its walk starts. */
  lemma {:induction false} NestedCandidate(owner: seq<string>, names: seq<string>)
    requires NormalSegs(owner) && |owner| >= 1
    requires NormalSegs(names) && |names| >= 1
    ensures Normalize(Join(names)) == Join(names)
    ensures JoinPaths(AbsPath(owner), Join(names)) == AbsPath(owner + names)
    ensures Split(Normalize(Dirname(AbsPath(owner + names)))) == [""] + (owner + names[..|names| - 1])
  {
    var all := owner + names;
    assert NormalSegs(all);
    NamesAreNormal(names);
    JoinNamesOntoAbsPath(owner, names);
    var x := owner + names[..|names| - 1];
    DirnameAbsPath(all);
    assert all[..|all| - 1] == x;
    assert NormalSegs(x);
    AbsPathIsNormal(x);
    SplitAbsPath(x);
  }

  /**
   * Importing a path of plain names below the importer's root `owner`: it
   * resolves exactly when none of the directories strictly between the root
   * and the target is itself a registered root, and is refused otherwise.
   * With a single name nothing lies in between, so a direct child resolves
   * even when it is a sub-module directory, yielding its `mod.ts`.
   */
  lemma {:induction false} ResolveNestedPath(modules: set<string>, fs: Snapshot, containingFile: string, owner: seq<string>, names: seq<string>)
    requires NormalSegs(owner) && |owner| >= 1
    requires NormalSegs(names) && |names| >= 1
    requires HasEnclosingRoot(modules, containingFile)
    requires Owner(modules, containingFile) == AbsPath(owner)
    requires AbsPath(owner + names) in fs
    ensures var r := ResolveImport(modules, fs, Join(names), containingFile);
      && (r.Resolved? <==> forall j :: 1 <= j < |names| ==> AbsPath(owner + names[..j]) !in modules)
      && (!r.Resolved? ==> r == OutsideModule)
      && (r.Resolved? && fs[AbsPath(owner + names)] == File ==> r.target == AbsPath(owner + names))
      && (r.Resolved? && fs[AbsPath(owner + names)] == Directory ==> r.target == AbsPath(owner + names + [EntryFile]))
  {
    var all := owner + names;
    var c := AbsPath(all);
    NestedCandidate(owner, names);
    assert Candidate(modules, Join(names), containingFile) == c;
    NestedWalk(modules, owner, names);
    assert NormalSegs(all);
    StatOfAbsPath(fs, all);
    EntryFileIsName();
    JoinNamesOntoAbsPath(all, [EntryFile]);
    assert Join([EntryFile]) == EntryFile;
    assert JoinPaths(c, EntryFile) == AbsPath(all + [EntryFile]);
  }

  /** Where the walk from the nested candidate stops. */
  lemma {:induction false} NestedWalk(modules: set<string>, owner: seq<string>, names: seq<string>)
    requires NormalSegs(owner) && |owner| >= 1
    requires NormalSegs(names) && |names| >= 1
    requires AbsPath(owner) in modules
    ensures HasEnclosingRoot(modules, AbsPath(owner + names))
    ensures FindBasePath(modules, AbsPath(owner + names)) == AbsPath(owner)
        <==> forall j :: 1 <= j < |names| ==> AbsPath(owner + names[..j]) !in modules
  {
    var n := |names|;
    var x := owner + names[..n - 1];
    NestedCandidate(owner, names);
    var segs := [""] + x;
    assert Split(Normalize(Dirname(AbsPath(owner + names)))) == segs;
    assert x[..|owner|] == owner;
    NearestRootIsAt(modules, x, |owner|);
    assert FindBasePath(modules, AbsPath(owner + names)) == Join(segs[..RootDepth(modules, segs)]);
    InnerPrefixes(modules, owner, names);
  }

  /** The ancestors of the nested candidate's directory below `owner`, counted two ways. */
  lemma InnerPrefixes(modules: set<string>, owner: seq<string>, names: seq<string>)
    requires |names| >= 1
    ensures var x := owner + names[..|names| - 1];
      (forall i :: |owner| < i <= |x| ==> AbsPath(x[..i]) !in modules)
      <==> (forall j :: 1 <= j < |names| ==> AbsPath(owner + names[..j]) !in modules)
  {
    var n := |names|;
    var x := owner + names[..n - 1];
    forall j | 1 <= j < n ensures x[..|owner| + j] == owner + names[..j] {
    }
    forall i | |owner| < i <= |x| ensures x[..i] == owner + names[..i - |owner|] {
    }
  }

  lemma EntryFileIsName()
    ensures NormalSeg(EntryFile)
  {
    assert forall i :: 0 <= i < |EntryFile| ==> EntryFile[i] != Sep;
  }

  /**
   * Importing a sub-module's directory by name is not refused: the walk from
   * the directory itself starts at its parent, the importer's root, so the
   * import resolves to the sub-module's entry file.
   */
  lemma SubmoduleDirectoryAccepted(modules: set<string>, fs: Snapshot, containingFile: string, owner: seq<string>, sub: string)
    requires NormalSegs(owner) && |owner| >= 1 && NormalSeg(sub)
    requires HasEnclosingRoot(modules, containingFile)
    requires Owner(modules, containingFile) == AbsPath(owner)
    requires AbsPath(owner + [sub]) in modules
    requires AbsPath(owner + [sub]) in fs && fs[AbsPath(owner + [sub])] == Directory
    ensures ResolveImport(modules, fs, sub, containingFile) == Resolved(AbsPath(owner + [sub, EntryFile]))
    ensures HasEnclosingRoot(modules, AbsPath(owner + [sub, EntryFile]))
    ensures FindBasePath(modules, AbsPath(owner + [sub, EntryFile])) == AbsPath(owner + [sub])
    ensures FindBasePath(modules, AbsPath(owner + [sub, EntryFile])) != Owner(modules, containingFile)
  {
    var x := owner + [sub];
    assert x + [EntryFile] == owner + [sub, EntryFile];
    assert NormalSegs(x) by {
      forall i | 0 <= i < |x| ensures NormalSeg(x[i]) {
        if i < |owner| {
          assert x[i] == owner[i];
        }
      }
    }
    ResolveNestedPath(modules, fs, containingFile, owner, [sub]);
    assert Join([sub]) == sub;
    var r := ResolveImport(modules, fs, sub, containingFile);
    assert r.Resolved?;
    assert r.target == AbsPath(x + [EntryFile]);
    SubmoduleOwnsItsEntry(modules, x);
    AbsPathInjective(owner, x);
  }

  /** The entry file of a registered root belongs to that root. */
  lemma SubmoduleOwnsItsEntry(modules: set<string>, x: seq<string>)
    requires NormalSegs(x) && |x| >= 1
    requires AbsPath(x) in modules
    ensures HasEnclosingRoot(modules, AbsPath(x + [EntryFile]))
    ensures FindBasePath(modules, AbsPath(x + [EntryFile])) == AbsPath(x)
  {
    EntryFileIsName();
    NestedCandidate(x, [EntryFile]);
    assert [EntryFile][..0] == [];
    assert x + [] == x;
    assert Split(Normalize(Dirname(AbsPath(x + [EntryFile])))) == [""] + x;
    assert x[..|x|] == x;
    NearestRootIsAt(modules, x, |x|);
  }

  /**
   * A specifier that climbs out of the module with leading ".." segments is
   * already in normal form, so the syntax check lets it through; only the
   * file system lookup and the boundary check stand in its way.
   */
  lemma ParentStepsPassSyntaxCheck(modules: set<string>, fs: Snapshot, k: nat, names: seq<string>, containingFile: string)
    requires k >= 1 && NormalSegs(names)
    ensures var spec := Join(Repeat("..", k) + names);
      && Normalize(spec) == spec
      && !ResolveImport(modules, fs, spec, containingFile).NotNormalized?
  {
    var st := Repeat("..", k) + names;
    assert Stack(st, true) by {
      forall i | 0 <= i < |st|
        ensures st[i] != "" && st[i] != "." && NoSep(st[i])
        ensures st[i] == ".." ==> forall j :: 0 <= j < i ==> st[j] == ".."
      {
        if i >= k {
          assert st[i] == names[i - k];
        }
      }
    }
    RenderIsNormal(st, false, false);
    assert Render(st, false, false) == Join(st);
  }
}

/**
 * The driver of transpile/src/mod.ts as far as resolution goes: module-root
 * discovery over the globbed file list, and the compiler host's
 * `resolveModuleNames`, which hands every specifier of a file to the resolver.
 */
module Mod {
  import opened Wrappers
  import opened Segments
  import opened PosixPath
  import opened Util
  import opened RewriteImports

  /**
   * The root an entry file registers: the file's path less its last
   * segment, for a file whose last segment is the entry file name; nothing
   * for any other file.
   */
  function EntryRoot(file: string): (r: Option<string>)
    ensures r.Some? <==> Last(Split(file)) == EntryFile
  {
    var segs := Split(file);
    if Last(segs) == EntryFile then Some(Join(segs[..|segs| - 1])) else None
  }

  /** The module roots a set of (normalized) file paths registers. */
  function Registry(files: set<string>): set<string> {
    set f | f in files && EntryRoot(f).Some? :: EntryRoot(f).value
  }

  /** `.map((file) => path.normalize(file))` over the globbed paths. */
  method NormalizeAll(globbed: seq<string>) returns (files: seq<string>)
    ensures |files| == |globbed|
    ensures forall i :: 0 <= i < |globbed| ==> files[i] == Normalize(globbed[i])
  {
    files := seq(|globbed|, i requires 0 <= i < |globbed| => Normalize(globbed[i]));
  }

  /**
   * The discovery loop: each entry file adds its directory to the module
   * set. The set depends only on which paths were found, not on their order
   * or repetitions.
   */
  method RegisterRoots(files: seq<string>) returns (modules: set<string>)
    ensures forall i :: 0 <= i < |files| && EntryRoot(files[i]).Some? ==> EntryRoot(files[i]).value in modules
    ensures forall d :: d in modules ==> exists i :: 0 <= i < |files| && EntryRoot(files[i]) == Some(d)
    ensures modules == Registry(set f | f in files)
  {
    modules := {};
    var k := 0;
    while k < |files|
      invariant 0 <= k <= |files|
      invariant forall i :: 0 <= i < k && EntryRoot(files[i]).Some? ==> EntryRoot(files[i]).value in modules
      invariant forall d :: d in modules ==> exists i :: 0 <= i < k && EntryRoot(files[i]) == Some(d)
    {
      var segments := Split(files[k]);
      ghost var root := EntryRoot(files[k]);
      if segments[|segments| - 1] == EntryFile {
        assert root == Some(Join(segments[..|segments| - 1]));
        modules := modules + {Join(segments[..|segments| - 1])};
      } else {
        assert root == None;
      }
      k := k + 1;
    }
    RegistryOfList(files, modules);
  }

  /** Lines 94-104 of the driver: normalize the globbed paths, then register the roots. */
  method DiscoverModules(globbed: seq<string>) returns (files: seq<string>, modules: set<string>)
    ensures |files| == |globbed|
    ensures forall i :: 0 <= i < |globbed| ==> files[i] == Normalize(globbed[i])
    ensures forall d :: d in modules <==> exists i :: 0 <= i < |files| && EntryRoot(files[i]) == Some(d)
    ensures modules == Registry(set f | f in files)
  {
    files := NormalizeAll(globbed);
    modules := RegisterRoots(files);
  }

  lemma RegistryOfList(files: seq<string>, modules: set<string>)
    requires forall i :: 0 <= i < |files| && EntryRoot(files[i]).Some? ==> EntryRoot(files[i]).value in modules
    requires forall d :: d in modules ==> exists i :: 0 <= i < |files| && EntryRoot(files[i]) == Some(d)
    ensures modules == Registry(set f | f in files)
  {
    var all := set f | f in files;
    forall d | d in Registry(all) ensures d in modules {
      var f :| f in all && EntryRoot(f).Some? && EntryRoot(f).value == d;
      var i :| 0 <= i < |files| && files[i] == f;
    }
    forall d | d in modules ensures d in Registry(all) {
      var i :| 0 <= i < |files| && EntryRoot(files[i]) == Some(d);
      assert files[i] in all;
    }
  }

  /**
   * For an entry file at a normal absolute path, the registered root is the
   * file's directory, as `path.dirname` gives it, except at the file system
   * root, where the segment join leaves the empty string instead of "/".
   */
  lemma EntryRootIsDirectory(dir: seq<string>)
    requires NormalSegs(dir)
    ensures EntryRoot(AbsPath(dir + [EntryFile])) == Some(if |dir| == 0 then "" else AbsPath(dir))
    ensures |dir| >= 1 ==> EntryRoot(AbsPath(dir + [EntryFile])).value == Dirname(AbsPath(dir + [EntryFile]))
  {
    EntryFileIsName();
    var all := dir + [EntryFile];
    assert NormalSegs(all);
    SplitAbsPath(all);
    var segs := [""] + all;
    assert Last(segs) == EntryFile;
    assert segs[..|segs| - 1] == [""] + dir;
    if |dir| == 0 {
      assert Join([""]) == "";
    } else {
      JoinAbsPrefix(dir, |dir|);
      assert ([""] + dir)[..|dir| + 1] == [""] + dir;
      assert dir[..|dir|] == dir;
      DirnameAbsPath(all);
      assert all[..|all| - 1] == dir;
    }
  }

  /** A path whose last segment is not the entry file name registers nothing. */
  lemma OtherFilesRegisterNothing(files: set<string>, f: string)
    requires Last(Split(f)) != EntryFile
    ensures Registry(files + {f}) == Registry(files)
  {
    assert EntryRoot(f).None?;
  }

  /**
   * Every file directly inside the directory of a discovered entry file
   * belongs to that module: the walk of `findBasePath` stops at once.
   */
  lemma EntryFileOwnsItsDirectory(files: set<string>, dir: seq<string>, name: string)
    requires NormalSegs(dir) && |dir| >= 1 && NormalSeg(name)
    requires AbsPath(dir + [EntryFile]) in files
    ensures HasEnclosingRoot(Registry(files), AbsPath(dir + [name]))
    ensures FindBasePath(Registry(files), AbsPath(dir + [name])) == AbsPath(dir)
  {
    EntryRootIsDirectory(dir);
    var modules := Registry(files);
    assert AbsPath(dir) in modules;
    NestedCandidate(dir, [name]);
    assert (dir + [name])[..0] == [];
    assert dir + [name][..0] == dir;
    var segs := [""] + dir;
    assert Split(Normalize(Dirname(AbsPath(dir + [name])))) == segs;
    assert dir[..|dir|] == dir;
    NearestRootIsAt(modules, dir, |dir|);
  }

  // ---------------------------------------------------------------------------
  // The compiler host

  /** The file name the host reports for a specifier the resolver refuses. */
  const InvalidImport: string := "INVALID_IMPORT_FORMAT.ts"

  /** The host's entry for one resolution: the target, or the placeholder for `null`. */
  function HostEntry(res: Resolution): (r: Result<string, Abort>)
    ensures res.StatThrows? ==> r == Failure(StatFailed(res.path))
    ensures res.NeverReturns? ==> r == Failure(Hangs)
    ensures res.Resolved? ==> r == Success(res.target) || (res.target == "" && r == Success(InvalidImport))
    ensures res.NotNormalized? || res.OutsideModule? ==> r == Success(InvalidImport)
  {
    if res.StatThrows? then Failure(StatFailed(res.path))
    else if res.NeverReturns? then Failure(Hangs)
    else Success(ResolvedOr(res, InvalidImport))
  }

  /**
   * The host's file name in the reading where only `null` gives way to the
   * placeholder: the target, or `InvalidImport` when the resolver gives `null`. `HostEntry` follows the code
   * instead, whose `||` also replaces an empty target; `ResolveModuleNameOutcome`
   * shows the two agree, since a resolved target is never empty.
   */
  function HostName(res: Resolution): string {
    if res.Resolved? then res.target else InvalidImport
  }

  /** The loop body of `resolveModuleNames` for one specifier. */
  function ResolveModuleName(modules: set<string>, fs: Snapshot, name: string, containingFile: string): Result<string, Abort> {
    HostEntry(ResolveImport(modules, fs, name, containingFile))
  }

  /**
   * One specifier: the host reports the resolved target, or the placeholder
   * when the resolver gives `null`; a throwing or hanging resolution aborts.
   */
  lemma ResolveModuleNameOutcome(modules: set<string>, fs: Snapshot, name: string, containingFile: string)
    ensures var res := ResolveImport(modules, fs, name, containingFile);
      var r := ResolveModuleName(modules, fs, name, containingFile);
      && (r.Success? <==> !res.StatThrows? && !res.NeverReturns?)
      && (r.Success? ==> r.value == HostName(res))
      && (res.StatThrows? ==> r == Failure(StatFailed(res.path)))
      && (res.NeverReturns? ==> r == Failure(Hangs))
  {
    var res := ResolveImport(modules, fs, name, containingFile);
    if res.Resolved? {
      ResolvedTargetNonEmpty(modules, fs, name, containingFile);
    }
  }

  /** The host entries of a list of specifiers, one per specifier. */
  function HostEntries(modules: set<string>, fs: Snapshot, names: seq<string>, containingFile: string): (es: seq<Result<string, Abort>>)
    ensures |es| == |names|
    ensures forall i :: 0 <= i < |names| ==> es[i] == ResolveModuleName(modules, fs, names[i], containingFile)
  {
    seq(|names|, i requires 0 <= i < |names| => ResolveModuleName(modules, fs, names[i], containingFile))
  }

  /** Entries computed one after another: the first abort ends the run, otherwise every value in order. */
  function Sequence(entries: seq<Result<string, Abort>>): Result<seq<string>, Abort> {
    if |entries| == 0 then Success([]) else Then(Single(entries[0]), Sequence(entries[1..]))
  }

  /** `entries[i]` is the first entry that aborts, with abort `e`. */
  predicate FirstAbort(entries: seq<Result<string, Abort>>, i: int, e: Abort) {
    && 0 <= i < |entries|
    && (forall j :: 0 <= j < i ==> entries[j].Success?)
    && entries[i] == Failure(e)
  }

  /**
   * What a run of entries gives: every value, in order, when none aborts;
   * otherwise the abort of the first entry that aborts.
   */
  lemma {:induction false} SequenceOutcome(entries: seq<Result<string, Abort>>)
    ensures var r := Sequence(entries);
      && (r.Success? <==> forall i :: 0 <= i < |entries| ==> entries[i].Success?)
      && (r.Success? ==> |r.value| == |entries| && forall i :: 0 <= i < |entries| ==> r.value[i] == entries[i].value)
      && (r.Failure? ==> exists i :: FirstAbort(entries, i, r.error))
  {
    if |entries| > 0 {
      var rest := entries[1..];
      SequenceOutcome(rest);
      var r := Sequence(entries);
      var tail := Sequence(rest);
      if entries[0].Failure? {
        assert FirstAbort(entries, 0, r.error);
      } else if tail.Failure? {
        var i :| FirstAbort(rest, i, tail.error);
        assert FirstAbort(entries, i + 1, r.error) by {
          forall j | 0 <= j < i + 1 ensures entries[j].Success? {
            if j > 0 {
              assert entries[j] == rest[j - 1];
            }
          }
        }
      } else {
        assert r.value == [entries[0].value] + tail.value;
        forall i | 0 <= i < |entries| ensures r.value[i] == entries[i].value {
          if i > 0 {
            assert entries[i] == rest[i - 1];
          }
        }
      }
      assert (forall i :: 0 <= i < |entries| ==> entries[i].Success?) ==> tail.Success? by {
        if forall i :: 0 <= i < |entries| ==> entries[i].Success? {
          forall i | 0 <= i < |rest| ensures rest[i].Success? {
            assert rest[i] == entries[i + 1];
          }
        }
      }
    }
  }

  /** The entries a per-specifier step gives for a list of specifiers. */
  function Entries(resolve: string -> Result<string, Abort>, names: seq<string>): (es: seq<Result<string, Abort>>)
    ensures |es| == |names|
    ensures forall i :: 0 <= i < |names| ==> es[i] == resolve(names[i])
  {
    seq(|names|, i requires 0 <= i < |names| => resolve(names[i]))
  }

  /**
   * The loop of `resolveModuleNames` over any per-specifier step: each
   * specifier in turn, its entry pushed; an abort ends the loop.
   */
  method ResolveEach(resolve: string -> Result<string, Abort>, names: seq<string>) returns (r: Result<seq<string>, Abort>)
    ensures r == Sequence(Entries(resolve, names))
  {
    ghost var entries := Entries(resolve, names);
    var resolved: seq<string> := [];
    var k := 0;
    assert entries[0..] == entries;
    assert Sequence(entries).Success? ==> [] + Sequence(entries).value == Sequence(entries).value;
    while k < |names|
      invariant 0 <= k <= |names|
      invariant Then(Success(resolved), Sequence(entries[k..])) == Sequence(entries)
    {
      var entry := resolve(names[k]);
      assert entry == entries[k];
      assert entries[k..][1..] == entries[k + 1..];
      if entry.Failure? {
        return Failure(entry.error);
      }
      ThenAssociative(Success(resolved), Single(entry), Sequence(entries[k + 1..]));
      resolved := resolved + [entry.value];
      k := k + 1;
    }
    assert Sequence(entries[k..]) == Success([]);
    assert resolved + [] == resolved;
    r := Success(resolved);
  }

  /**
   * `CompilerHost.resolveModuleNames`: the loop run with the host's step,
   * `resolveImport` with the placeholder for `null`.
   */
  method ResolveModuleNames(modules: set<string>, fs: Snapshot, names: seq<string>, containingFile: string)
    returns (r: Result<seq<string>, Abort>)
    ensures r == Sequence(HostEntries(modules, fs, names, containingFile))
  {
    var resolve := (name: string) => ResolveModuleName(modules, fs, name, containingFile);
    r := ResolveEach(resolve, names);
    assert Entries(resolve, names) == HostEntries(modules, fs, names, containingFile);
  }

  /**
   * The compiler host and the import rewriter see the same resolution: they
   * abort on the same specifiers, and where the resolver finds a target the
   * emitted specifier is computed from exactly the file the type checker
   * was given. They differ only in what stands in for `null`: the host's
   * placeholder, the rewriter's raw specifier.
   */
  lemma HostAndRewriterAgree(modules: set<string>, fs: Snapshot, cwd: seq<string>, importPath: string, containingFile: string)
    ensures var res := ResolveImport(modules, fs, importPath, containingFile);
      var host := HostEntry(res);
      var emitted := RewriteImportPath(modules, fs, cwd, importPath, containingFile);
      && (host.Success? <==> emitted.Success?)
      && (host.Failure? ==> host == emitted)
      && (res.Resolved? ==> emitted == Success(RewrittenPath(cwd, containingFile, host.value)))
      && (host.Success? && !res.Resolved? ==> emitted == Success(RewrittenPath(cwd, containingFile, importPath)))
  {
    var res := ResolveImport(modules, fs, importPath, containingFile);
    if res.Resolved? {
      ResolvedTargetNonEmpty(modules, fs, importPath, containingFile);
    }
  }
}

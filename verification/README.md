# TSM import resolution and rewriting, modelled in Dafny

TSM transpiles a tree of TypeScript modules to ES modules. A directory that
directly holds a file named `mod.ts` is a *module root*. Inside a module,
imports are written relative to the module root. For example,
`import "util/x.ts"` in any file of the module means `<root>/util/x.ts`.

This project models the part of the transpiler that gives those specifiers
their meaning. It has three parts:

- **Module-root discovery.** `transpileEsm` normalizes every globbed path and
  registers the directory of every `mod.ts` (module `Mod`, file
  `transpile_mod.dfy`).
- **Resolution.** `findBasePath` walks up from a file's directory to the
  nearest registered root. `resolveImport` does four things in turn:
  - it rejects specifiers that are not in normal form;
  - it joins the specifier onto the importer's root;
  - it stats the candidate and refuses anything whose own root is not the
    importer's;
  - it appends `mod.ts` to a directory.

  This is module `Util`, file `util.dfy`.
- **Rewriting.** `rewriteImportPath` turns the resolved target into a
  path relative to the importing file's directory and ending in `.js`. It is
  `./`-prefixed when the relative part has at least three characters. The
  transformer visits the syntax tree and rewrites the specifier of every
  static import, every re-export and every dynamic `import()` (module
  `RewriteImports`, file `rewrite_imports.dfy`). The compiler host's
  `resolveModuleNames` gives the type checker the same resolutions (module
  `Mod`).

Three modules support these:

- `Segments` (`segments.dfy`) holds JavaScript's `split("/")` and
  `join("/")`.
- `PosixPath` (`posix_path.dfy`) holds the POSIX behaviour of Node's
  `path.normalize`, `path.dirname`, `path.join` and `path.relative`.
- `Wrappers` (`wrappers.dfy`) holds `Option` and `Result`.

The separator is always `/`. Every function is pure:

- The file system is a `Snapshot`, a map from each existing path to
  `File` or `Directory`.
- The process working directory that `path.relative` resolves against is a
  parameter `cwd`.

`resolveImport` can end in three ways, and the model adds a fourth:

- it returns a path (`Resolved`);
- it returns `null`, either because the specifier is not normalized
  (`NotNormalized`) or because the target lies outside the importer's module
  (`OutsideModule`);
- it throws from `fs.statSync` (`StatThrows`);
- it never returns, because a `findBasePath` walk finds no registered root
  (`NeverReturns`).

These are the cases of `Util.Resolution`. The transformer aborts on a throw
or a hang, and also on `import()` with no argument, where `arguments[0]` is
undefined. It reports the first abort in source order (`RewriteImports.Abort`).

## Behaviour the code has, which the model follows

- **Leading `..` passes the syntax check.** The check at util.ts:21 compares
  a specifier with its normalized form. That form keeps leading `..`
  segments, so `../x.ts` passes the check despite the message on line 22.
  The same holds for `.` and `./`.
  A specifier that passes has the shape `PosixPath.NormalFormShape` states.
  It is not empty. A `.` segment occurs only in `.` and `./` themselves. An
  empty segment occurs only at either end, that is a leading or trailing `/`.
  A `..` segment occurs only in the leading run of a relative specifier.
  Anything else is refused, for example `a/.`, `a//b`, `./a`, `a/../b`,
  `/../x` and the empty string (`PosixPath.NormalFormShape`). That `../x` and
  the like do pass is `Util.ParentStepsPassSyntaxCheck`.
- **A sub-module's directory can be imported by name.** The walk from the
  directory `<root>/sub` starts at its parent `<root>`, so the boundary check
  passes and the result is `<root>/sub/mod.ts`. The boundary check is not
  closed under that result: the root of `<root>/sub/mod.ts` is `<root>/sub`
  (`Util.SubmoduleDirectoryAccepted`). A file inside the sub-module is
  refused (`Util.SubmoduleEntryRejected`).
- **The `./` prefix is not always there.** Line 42 cuts three characters off
  `"./" + relative`. A relative part shorter than three characters therefore
  loses some or all of the `./` (`"ab"` gives `"..js"`). The output starts with
  `./` exactly when the relative part has at least three characters
  (`RewriteImports.DotSlashJsShape`).
- **A `mod.ts` at the file-system root registers the empty string, not `/`.**
  Discovery joins the remaining segments and does not call `dirname`
  (`Mod.EntryRootIsDirectory`).

## Model

| member | source | states |
|---|---|---|
| Segments.JoinSplit | transpile/src/util.ts:6-9 | Joining the segments of a split path gives the path back, so the walk's first candidate is the directory itself. |
| Segments.SplitJoin | transpile/src/mod.ts:100-102 | Splitting joined segments that contain no separator gives the segments back. |
| PosixPath.NormalizeIdempotent | transpile/src/util.ts:21 | `normalize` is idempotent, so every value it returns passes the syntax check. |
| PosixPath.NormalFormShape | transpile/src/util.ts:21-24 | A specifier that passes the syntax check is non-empty. It has `.` only as `.` or `./`, an empty segment only at either end, and `..` only as a leading run of a relative path. |
| PosixPath.RenderIsNormal | transpile/src/util.ts:21-24 | Conversely, every valid segment stack written out is in normal form, including stacks that start with `..`. |
| PosixPath.DirnameAbsPath | transpile/src/util.ts:5 | The directory of an absolute path of plain names is that path without its last name. |
| PosixPath.JoinOntoAbsPath | transpile/src/util.ts:29 | Joining relative segments (with or without a leading `./`) onto an absolute path reads them onto its segment stack. |
| PosixPath.RelativeRoundTrip | transpile/src/rewriteImports.ts:41 | `join(from, relative(from, to)) == to` for absolute paths of plain names. |
| Util.RootDepth | transpile/src/util.ts:8-15 | The walk stops at the deepest registered prefix: that prefix is registered and no deeper one is. |
| Util.FindBasePathLoop | transpile/src/util.ts:4-16 | The `while (true)` pop loop returns a registered root, and it is the nearest one that `RootDepth` defines. |
| Util.WalkIsPrefix | transpile/src/util.ts:8-15 | After `n` pops (`segments.pop()`, which leaves an empty list empty) the list is the prefix `n` segments shorter, or empty once `n` reaches its length. |
| Util.NoRootNoExit | transpile/src/util.ts:8-15 | With no registered prefix, the candidate the loop tries after any number of pops misses again, so the loop never returns. |
| Util.NearestRootIsAt | transpile/src/util.ts:4-16 | Starting from an absolute directory, the walk stops at a given registered ancestor exactly when no deeper ancestor-or-self is registered. |
| Util.ResolveImport | transpile/src/util.ts:18-49 | Each outcome is characterised by the inputs. `null` for a specifier not in normal form, exactly. A hang exactly when the importer's walk never ends, or the candidate exists and its walk never ends. A throw with the candidate path exactly when the importer's walk ends and `statSync` fails on the candidate. `null` for leaving the module exactly when the candidate exists and its root differs from the importer's. Otherwise the import resolves, to the candidate's `mod.ts` for a directory and to the candidate itself for a file. |
| Util.StatWithTrailingSep | transpile/src/util.ts:30 | `statSync` on an absolute path followed by `/` succeeds, as a directory, exactly when that path is a directory; a file there makes it throw. |
| Util.ResolvedTargetNonEmpty | transpile/src/util.ts:42-48 | A resolved target is never the empty string, so the `or` fallbacks of the host and the rewriter only ever replace `null`. |
| Util.SubmoduleEntryRejected | transpile/src/util.ts:33-40 | A candidate whose own directory is a registered root other than the importer's is refused with `null` (for example `sub/mod.ts`). |
| Util.ResolveNestedPath | transpile/src/util.ts:28-48 | An existing path of plain names below the importer's root resolves exactly when no directory strictly between root and target is a registered root; otherwise it gives `null`. The target is the candidate for a file and the candidate's `mod.ts` for a directory. |
| Util.SubmoduleDirectoryAccepted | transpile/src/util.ts:28-44 | Importing a direct sub-module's directory resolves to its `mod.ts`, whose own root is the sub-module, not the importer's root. |
| Util.ParentStepsPassSyntaxCheck | transpile/src/util.ts:21-24 | Leading `..` steps followed by names form a normal specifier, so it is not refused as non-normal. |
| RewriteImports.UnquoteLiteral | transpile/src/rewriteImports.ts:17-18 | The specifier taken from a literal is its text without the surrounding quotes, whichever quote character it uses. |
| RewriteImports.DotSlashJsShape | transpile/src/rewriteImports.ts:41-42 | The result always ends in `.js`. It starts with `./` exactly when the relative part has at least three characters, and then it is `./` plus that part with its last three characters replaced by `.js`. |
| RewriteImports.RewrittenPath | transpile/src/rewriteImports.ts:41-42 | The same shape, for the relative path from the containing file's directory to the target, with backslashes turned into `/`. |
| RewriteImports.RewriteImportPath | transpile/src/rewriteImports.ts:38-44 | A `null` resolution does not stop the rewrite; it fails exactly when resolution throws (with that path) or hangs. |
| RewriteImports.RewrittenPathDenotesTarget | transpile/src/rewriteImports.ts:41-42 | For a `.ts` target that is not an ancestor of the file's directory, the result starts with `./`. Read from the file's directory with `.js` mapped back to `.ts`, it names the target. |
| RewriteImports.RewriteResolvedImport | transpile/src/rewriteImports.ts:38-44 | End to end: a root-relative import of a `.ts` file in the importer's module is rewritten to a `./` path that, read back from the importer's directory, is that file. |
| RewriteImports.WithStaticSpecifier | transpile/src/rewriteImports.ts:20-21 | The clone of a static import is still a static import, and its specifier is the new literal. |
| RewriteImports.VisitAgrees | transpile/src/rewriteImports.ts:15-33 | The visitor's outcome matches rewriting the node's import sites in source order. It aborts with the first failure. Otherwise the sites carry the new literals, every `import()` has that literal as its only argument (further arguments are dropped), everything else is unchanged, and an import node is not descended into. |
| RewriteImports.DynamicImportAgrees | transpile/src/rewriteImports.ts:23-29 | For an `import()` call, agreeing with the reference fixes the result: the same call whose argument list is the rewritten first argument alone. |
| RewriteImports.VisitEachChildAgrees | transpile/src/rewriteImports.ts:32 | Visiting each child agrees in the same way with the sites below the node, left to right, including the single argument of every rewritten `import()`. |
| RewriteImports.VisitAllAgrees | transpile/src/rewriteImports.ts:32 | Visiting a list of children agrees in the same way with the concatenated sites of the list, including the single argument of every rewritten `import()`. |
| RewriteImports.TransformSourceFile | transpile/src/rewriteImports.ts:6-12 | Transforming a file aborts exactly when rewriting its import sites in order aborts, with the same abort. Otherwise the new tree has the rewritten paths at its sites, every `import()` in it has that path as its only argument, and it equals the old tree elsewhere. |
| Mod.EntryRoot | transpile/src/mod.ts:100-103 | A path registers a root exactly when its last segment is exactly `mod.ts`. |
| Mod.NormalizeAll | transpile/src/mod.ts:94-97 | One normalized path per globbed path, in order. |
| Mod.RegisterRoots | transpile/src/mod.ts:99-104 | The loop registers every entry file's root and nothing else. The result is the registry of the set of paths, so it is independent of order and duplicates. |
| Mod.DiscoverModules | transpile/src/mod.ts:94-104 | The registered roots are exactly the roots of the normalized globbed entry files. |
| Mod.EntryRootIsDirectory | transpile/src/mod.ts:100-103 | The root an entry file registers is its `dirname`, except for `/mod.ts`, which registers the empty string. |
| Mod.OtherFilesRegisterNothing | transpile/src/mod.ts:101 | Adding a file whose last segment is not `mod.ts` leaves the registry unchanged. |
| Mod.EntryFileOwnsItsDirectory | transpile/src/mod.ts:99-104 | After discovery, every file next to a discovered `mod.ts` has that directory as its root. |
| Mod.HostEntry | transpile/src/mod.ts:80 | A resolved target passes through. `null` becomes `INVALID_IMPORT_FORMAT.ts`. A throw or a hang aborts. |
| Mod.ResolveModuleNameOutcome | transpile/src/mod.ts:79-81 | The host's entry for one name succeeds exactly when resolution neither throws nor hangs, and then it is the target or the placeholder. |
| Mod.SequenceOutcome | transpile/src/mod.ts:76-84 | A run of entries gives every value in order when none aborts. Otherwise it gives the abort of the first entry that aborts. |
| Mod.ResolveEach | transpile/src/mod.ts:76-84 | The push loop over the names computes that run of entries. |
| Mod.ResolveModuleNames | transpile/src/mod.ts:72-85 | `resolveModuleNames` returns the host entries of the names, one per name and in order, or the first abort. |
| Mod.HostAndRewriterAgree | transpile/src/mod.ts:80 | The host and the rewriter abort on the same specifiers. Where the resolver finds a target, the emitted specifier is computed from the file the type checker was given. They differ only in what replaces `null`. |

## Left out

- The TypeScript compiler plumbing is not modelled:
  - the `ts.sys`-backed host methods;
  - `createProgram`, `emit` and diagnostics;
  - node cloning and factory calls, beyond what the `Node` datatype records.
- Type arguments, decorators and modifiers of nodes are not modelled. The node kinds the transformer does not match are lumped into `Other`.
- Bundling with rollup, cleanup with rimraf, the temporary workspace, and the glob itself are I/O. The globbed path list is an input.
- The lib path (`import.meta.resolve`, `getDefaultLibFileName`) is process-global state.
- The real file system is replaced by a `Snapshot`. `Stat` models `statSync` on it, including a trailing `/`, which names a directory and makes the call throw on a file. Symbolic links and permissions are not modelled.
- The process working directory used by `path.relative` is a parameter.
- Windows separators: with `/` as the only separator, the replace on util.ts:19 is the identity. The backslash replace on rewriteImports.ts:41 is modelled.
- `console.error` messages are not modelled.
- The `inputPath`/`outputPath` parameters of the transformer are not modelled, because the rewrite never reads them.
- `resolveImport` is a function of the registry and the snapshot, so repeated calls agree by construction; no separate lemma says so.
- `transpilation_example.js` is not part of this model.
- RewriteImports.RewrittenPathDenotesTarget: states the round trip only under some requirements:
  - the target has no backslashes;
  - its last name ends in `.ts`;
  - it is not an ancestor of the importing file's directory, because for such a target the relative path is made only of `..` steps;
  - it is absolute and made of plain names.
- RewriteImports.RewriteResolvedImport: has the same requirements as `RewrittenPathDenotesTarget`, and covers file imports below the importer's root only.
- PosixPath.RelativeRoundTrip: holds for absolute paths made of plain names only. `relative` between arbitrary strings is defined but not characterised.
- PosixPath.RenderIsNormal: the converse of `NormalFormShape` is stated for segment stacks, not for arbitrary strings of the normal shape.
- Util.FindBasePathLoop: requires some ancestor prefix of the file's directory to be registered, as `FindBasePath` does. The source calls `findBasePath` without such a guard (util.ts:28 and util.ts:34), and a leading `..` passes the syntax check. With roots `{"/a/b"}`, importer `/a/b/f.ts`, specifier `../x` and an existing `/a/x`, the second walk starts at `/a` and never ends. `ResolveImport` reports such a walk as `NeverReturns`, and `NoRootNoExit` shows that the loop never returns.
- RewriteImports.DotSlashJsShape: counts lengths in Unicode scalar values, the characters of a Dafny string. JavaScript's `length` and `substring` (rewriteImports.ts:42) count UTF-16 code units. The two differ when a character outside the Basic Multilingual Plane is among the last three of the relative path. A target ending in `.ts` is not affected, since those three characters are single code units. `Substring` shares this limit.
- RewriteImports.RewrittenPath: has the same UTF-16 gap as `DotSlashJsShape`, because it applies `DotSlashJs` to the relative path. Its "`./` exactly when at least three characters" clause and the cut of three characters count Unicode scalar values, not UTF-16 code units.

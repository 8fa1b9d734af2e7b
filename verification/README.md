# RepoToText, modelled in Dafny

RepoToText turns a repository into one text file. The file holds a drawing of the file tree,
then the contents of the selected source files, each under a `===== BEGIN <path> =====` heading.
The repository has two entry points, and this project models the logic of both.

- `index.ts` is the flag-driven variant. The model covers its selection predicates:
  - `isExcluded` is a directory prefix test or a literal suffix test, applied after turning
    backslashes into slashes.
  - `isIncluded` is a substring test against the custom includes, or a suffix test against
    the configured extensions.
  - Both short-circuit on `--include-all`.

  Module `Index` (`index.dfy`) holds these, with the option values as parameters.
- `cli.ts` is the positional-argument variant. The model covers these parts:
  - Its prefix-only predicates and the parsing of the version-control listing: module
    `CliSelect` (`cli_select.dfy`).
  - `generateFileTree`, which builds an insertion-ordered nested map: module `CliTree`
    (`cli_tree.dfy`).
  - `printFileTree`, which draws that map depth first with `├─ ` / `└─ ` glyphs: module
    `CliRender` (`cli_render.dfy`).
  - `processFile` and the top-level script that writes the whole document: module
    `CliDocument` (`cli_document.dfy`).

  All of these write to one output file. Class `Output.OutputFile` (`output.dfy`) models it,
  with one method per write call the script makes.

Module `Text` (`text.dfy`) gives the JavaScript string operations the tool uses:
`startsWith`, `endsWith`, `includes`, `replace` and `split`. It also holds the array method
`filter`, the concatenation of successive appends, and `Join`, the inverse of `split` that the
proofs use.

The tree is a value: `Node = Leaf | Dir(entries)`, where `entries` is an ordered list of
(key, child) pairs. Assigning a property of a JavaScript object becomes `SetKey`: an existing
key keeps its position and gets the new value, and a new key goes at the end.

The main results:

- **Selection.** For `index.ts`, exact characterisations of both predicates, with examples.
  For `cli.ts`, that both predicates are prefix tests only.
- **Listing.** The tracked files are the non-blank lines of the listing, untrimmed and in
  order.
- **Tree building.** After `generateFileTree`, the tree holds a leaf at exactly the segment
  lists of the admitted files. It stays well formed: keys are distinct and no directory is
  empty. Re-inserting a file changes nothing. Keys keep the order of their first insertion.
- **Drawing.** `printFileTree` appends exactly the lines of a pre-order listing of the keys,
  one per key. The indent of each line is given column by column.
- **Document.** The written document is the heading, the drawing, a blank line, then one
  block per tracked file that is admitted and ends in `.ts` or `.tsx`, in listing order.
  Every file with a block has a leaf in the tree.

A note on the drawing: the code indents a key's children with `"   "` or `"│  "`. It chooses
between them by the `isLast` flag of the call that draws the key (cli.ts:86), not by whether
the key is the last of its siblings. The top call defaults that flag to `true`, so the children
of every top-level directory get three spaces. For the listing `a/b.txt`, `a/c.txt`, `d.txt`,
the code therefore draws `   ├─ b.txt` under `├─ a`, where the conventional drawing would be
`│  ├─ b.txt`. The model follows the code; `CliRender.ListingExample` states the drawing the code produces.

## Model

| member | source | states |
|---|---|---|
| Text.ReplaceChar | index.ts:23-24 | `replace(/\\/g, "/")` keeps the length and leaves no backslash |
| Text.Split | cli.ts:54 | `split` of a one-character separator gives at least one piece, and no piece contains the separator |
| Text.JoinSplit | cli.ts:54 | joining the pieces of a split with the separator gives back the original string |
| Text.SplitJoin | cli.ts:62 | splitting a join of separator-free pieces gives back exactly those pieces |
| Text.SplitAround | cli.ts:54 | a separator between two strings splits them apart: the pieces of the first, then the pieces of the second |
| Text.Filter | cli.ts:54 | `filter` keeps exactly the elements satisfying the predicate and never lengthens the list |
| Text.FilterAppend | cli.ts:54 | filtering distributes over concatenation, so the kept elements keep their order |
| Text.ConcatAppend | cli.ts:90 | successive appends concatenate: appending `a` then `b` adds the concatenation of both |
| Index.MatchesExclusion | index.ts:22-29 | whether one entry excludes a path, both with backslashes turned into slashes: a prefix test for an entry ending in `/`, a suffix test otherwise (see `Index.DirectoryEntryIsPrefix`, `Index.OtherEntryIsSuffix`); an entry never matches a path shorter than itself |
| Index.IsExcluded | index.ts:20-30 | `isExcluded`: false under `includeAll`, otherwise whether some standard entry matches; `Index.ExcludedExactly` spells it out entry by entry |
| Index.IsIncluded | index.ts:33-42 | `isIncluded`: true under `includeAll`, otherwise whether some custom include occurs in the raw path or the raw path ends with some extension; `Index.IncludedExactly` spells it out |
| Index.ExcludedExactly | index.ts:9-30 | without `includeAll`, a path is excluded iff, once slashed, it starts with `node_modules/`, `.git/`, `dist/` or `build/`, or ends with `.DS_Store` or `*.log`; with it, never |
| Index.IncludedExactly | index.ts:17-42 | a path is included iff `includeAll` holds, it contains `package.json` or `README.md`, or it ends with one of the extensions; the include `../../README.md` never decides anything |
| Index.Slashed | index.ts:23-24 | a normalised path has no backslash and the length of the original |
| Index.IncludeAllShortCircuits | index.ts:20-42 | with `includeAll`, no path is excluded and every path is included |
| Index.DirectoryEntryIsPrefix | index.ts:22-27 | an entry ending in `/` excludes exactly the paths that start with it once their backslashes are slashes |
| Index.OtherEntryIsSuffix | index.ts:22-29 | any other entry excludes exactly the paths that end with it, character for character, once their backslashes are slashes |
| Index.ExclusionIgnoresBackslashes | index.ts:23-24 | exclusion gives the same answer after backslashes in the entry and the path become slashes |
| Index.ExcludedByMonotone | index.ts:22-29 | adding exclusion entries never turns an exclusion off |
| Index.IncludedByMonotone | index.ts:35-41 | adding include entries or extensions never turns an inclusion off |
| Index.StandardExclusionsSlashed | index.ts:9-16 | the standard exclusion entries contain no backslash, so normalising leaves them unchanged |
| Index.StandardEntries | index.ts:9-16 | on a path without backslashes, `node_modules/`, `.git/`, `dist/` and `build/` match exactly as prefixes, and `.DS_Store` and `*.log` exactly as suffixes |
| Index.NotExcluded | index.ts:20-30 | a path without backslashes that none of the six standard entries matches, as a prefix or suffix as above, is not excluded |
| Index.DirectoryEntryExample | index.ts:20-30 | `node_modules/a.ts` is excluded |
| Index.NestedDirectoryExample | index.ts:20-30 | `src/node_modules/a.ts` is not excluded: a directory entry matches only at the start |
| Index.FileEntryExample | index.ts:20-30 | `a/.DS_Store` is excluded |
| Index.LogEntryExample | index.ts:20-30 | `x*.log` is excluded |
| Index.NoGlobExample | index.ts:20-30 | `app.log` is not excluded, since `*.log` is literal text and not a pattern |
| Index.BackslashExample | index.ts:23-28 | `node_modules\a` is excluded: a backslash counts as a slash |
| Index.SubstringExamples | index.ts:33-42 | `docs/README.md` and `src/package.json.bak` are included, since an include matches anywhere in the path |
| Index.ExtensionExample | index.ts:33-42 | `src/app.tsx` is included by the default extensions |
| Index.OtherExtensionExample | index.ts:33-42 | `src/app.js` is not included: it holds no include and ends in no default extension |
| Index.BackslashInclusionExample | index.ts:23-39 | a backslash does not stand for a slash in inclusion, although it does in exclusion |
| CliSelect.IsExcluded | cli.ts:36-42 | `isExcluded`: whether the path starts with `locales/` or `*.ts-snapshots`; see `CliSelect.SelectionExtends` and the examples |
| CliSelect.IsIncluded | cli.ts:44-50 | `isIncluded`: whether the path starts with one of the three custom includes; see `CliSelect.SelectionExtends` and the examples |
| CliSelect.Admitted | cli.ts:61 | the filter shared by the tree and the blocks: not excluded, or included; by `CliSelect.IncludesNeverOverride` it comes down to not being excluded |
| CliSelect.Selected | cli.ts:100-103 | the files whose contents are copied: admitted and ending in `.ts` or `.tsx`; `CliDocument.ProcessFile` and `CliDocument.BlocksAreSelectedFiles` state what it decides |
| CliSelect.IsBlank | cli.ts:54 | `trim() === ""`: every character is one that `trim` removes, ECMAScript white space or a line terminator; `CliSelect.TrackedFiles` drops exactly these lines |
| CliSelect.Segments | cli.ts:62 | `file.split(path.sep)`: at least one segment, none holding `/`; `Text.JoinSplit` and `Text.SplitJoin` make it the exact inverse of joining with `/` |
| CliSelect.SelectionExtends | cli.ts:36-50 | both cli.ts predicates are prefix tests: a path that is excluded or included stays so whatever is appended to it |
| CliSelect.IncludesNeverOverride | cli.ts:22-50 | with the configured lists no path is both excluded and included, so a path is admitted iff it is not excluded |
| CliSelect.ExclusionExamples | cli.ts:21-42 | `locales/x` is excluded and `src/locales/x` is not: exclusion is a prefix test |
| CliSelect.InclusionExamples | cli.ts:29-50 | `README.md` is included and `docs/README.md` is not: inclusion is a prefix test |
| CliSelect.SnapshotExamples | cli.ts:21-42 | `*.ts-snapshots` is literal text and matches only paths that start with those characters |
| CliSelect.AdmittedExamples | cli.ts:21-61 | `docs/README.md` and `package.json` are admitted, `locales/en.json` is not |
| CliSelect.TrackedFiles | cli.ts:52-55 | a file is tracked iff it is a `\n`-separated piece of the listing that is not blank; tracked files hold no newline and are not empty |
| CliSelect.TrackedFilesOfLines | cli.ts:54 | a listing made of lines yields its non-blank lines in order, untrimmed; two listings one after the other yield the files of the first, then those of the second |
| CliTree.Get | cli.ts:69 | reading a key finds nothing iff the key is absent, and otherwise finds a value stored under it |
| CliTree.SetKey | cli.ts:67-69 | assigning a key adds it at the end if it is new and keeps the key order otherwise; the key then holds the new value and every other key keeps its value |
| CliTree.Insert | cli.ts:62-72 | inserting a path into a directory yields a non-empty directory |
| CliTree.NewChild | cli.ts:65-71 | the value stored under a segment is a leaf for the last segment and a non-empty directory otherwise |
| CliTree.InsertLeaves | cli.ts:62-72 | after inserting path `p`, the leaves are exactly the old leaves plus `p` |
| CliTree.LeafPathDirs | cli.ts:65-71 | every proper prefix of a leaf's path is a directory of the tree |
| CliTree.InsertExisting | cli.ts:66-70 | inserting a path that is already a leaf leaves the tree unchanged |
| CliTree.InsertKeysAt | cli.ts:67-69 | inserting keeps every directory and its keys in order, and adds at most the one new key on the path, at the end |
| CliTree.InsertValid | cli.ts:62-72 | inserting keeps the keys of each directory distinct and no directory empty |
| CliTree.FitsWithoutCollision | cli.ts:65-71 | a path that is neither a directory on the way to a leaf nor below a leaf can be inserted without the collisions the code mishandles |
| CliTree.BuildTree | cli.ts:57-77 | the tree of a listing is well formed and holds a leaf exactly at the segment lists of the admitted files |
| CliTree.BuildTreeSnoc | cli.ts:60-74 | the files are taken one at a time in listing order, and a file that is not admitted changes nothing |
| CliTree.GenerateFileTree | cli.ts:57-77 | the loop over the listing returns the tree of the whole listing |
| CliTree.BuildTreeKeysGrow | cli.ts:60-74 | a directory stays in the tree as more files are added, and its keys keep the order of their first insertion |
| CliTree.TreeExample | cli.ts:57-77 | `a/b.txt`, `a/c.txt`, `d.txt` build directory `a` holding `b.txt` and `c.txt`, followed by `d.txt` |
| Output.OutputFile.Write | cli.ts:113 | writing replaces the contents of the file |
| Output.OutputFile.Append | cli.ts:90 | appending adds at the end and keeps what was there |
| CliRender.Lines | cli.ts:79-97 | the lines `printFileTree` appends for a tree, in order: for each key its line, then the lines of its subtree one level deeper; `CliRender.LinesAreRows` and `CliRender.PadColumns` characterise them and `CliRender.PrintFileTree` is proved to append exactly them |
| CliRender.PrintFileTree | cli.ts:79-97 | the recursive loop appends exactly the lines of the drawing of the tree, in order |
| CliRender.LinesAreRows | cli.ts:79-97 | the drawing has one line per key, in depth-first pre-order; each line is the indent, a padding given by the flags of its ancestors, `└─ ` for the last key of its directory and `├─ ` otherwise, the key and a newline; leaves and directories are drawn alike |
| CliRender.LinesUpToAreRows | cli.ts:83-96 | the lines of the first `n` keys of a directory are those of their rows |
| CliRender.ItemLinesAreRows | cli.ts:84-95 | a key's line is followed by the lines of its subtree, nested one level |
| CliRender.LinesOfNest | cli.ts:86-94 | drawing a subtree adds one column, chosen by the enclosing call's `isLast`, to the indent of each of its lines |
| CliRender.PadFirstColumn | cli.ts:86-94 | the first column of the padding comes from the `isLast` of the call |
| CliRender.PadColumns | cli.ts:86-94 | the padding has three characters per ancestor, and column `j > 0` comes from whether the ancestor at depth `j - 1` is last, not the one at depth `j` |
| CliRender.TopColumnIsBlank | cli.ts:79-86 | drawn from the top with the defaults, every key below the top level starts with three spaces |
| CliRender.DrawingExample | cli.ts:79-97 | the drawing of directory `a` holding `b.txt` and `c.txt`, then `d.txt`, has `   ├─ b.txt` under `├─ a` |
| CliRender.ListingExample | cli.ts:57-97 | the listing `a/b.txt`, `a/c.txt`, `d.txt` is drawn as `├─ a`, `   ├─ b.txt`, `   └─ c.txt`, `└─ d.txt` |
| CliDocument.Block | cli.ts:105 | the text appended for one file: the `===== BEGIN <path> =====` heading line, the contents, then a blank line; `CliDocument.BlockLines` reads it back line by line |
| CliDocument.Document | cli.ts:110-117 | the whole output: `File Tree:\n`, the drawing of the tree of the listing, `\n`, then the blocks of the selected files in listing order; `CliDocument.Run` is proved to write exactly this |
| CliDocument.BlockLines | cli.ts:105 | read line by line, a block is the heading line naming the file, the lines of the contents unchanged, then the trailing blank line |
| CliDocument.ProcessFile | cli.ts:99-108 | the block of a file is appended iff the file is admitted and ends in `.ts` or `.tsx`; otherwise nothing is appended |
| CliDocument.BlocksSnoc | cli.ts:117 | one more file adds its block after the blocks of the earlier files iff it is selected |
| CliDocument.ProcessFiles | cli.ts:117 | processing the listing appends the blocks of its selected files, in listing order |
| CliDocument.Run | cli.ts:110-117 | the output file ends up holding `File Tree:\n`, the drawing of the tree of the tracked files, `\n`, then the blocks of the selected files in listing order |
| CliDocument.BlocksAreSelectedFiles | cli.ts:99-108 | a file gets a block iff it is tracked and selected, every block belongs to such a file, and every file with a block has a leaf in the tree |

## Left out

- `index.ts` `main` and `processFileContent` are not modelled. They consist of commander
  option parsing, `tree-node-cli` tree generation, the `walkdir` traversal, chalk colouring and
  file writes, all foreign libraries or I/O. Of `main`, note only that it selects file contents
  with `isIncluded` alone and never calls `isExcluded` (index.ts:101-105).
- The `index.ts` options `includeAll` and `extensions` are parameters, not the global `program`
  object.
- `execSync("git ls-files")` (cli.ts:53) is a process call. The model takes its output as the
  string `listing` and models only the split and filter of it.
- `fs.readFileSync` (cli.ts:104) is modelled by a parameter `read`, a function from a tracked
  path to its text. The joining of the repository path is part of `read`. Failures to read a
  file, which throw, are not modelled.
- The output file is the object `OutputFile`. Failures to write, which throw, are not modelled.
- The argument-count check and `process.exit` (cli.ts:9-12) are command-line plumbing and are
  not modelled.
- `path.normalize` is taken as the identity and `path.sep` as `/`. This is exact on relative
  paths without `.` segments, `//` or inner `..` segments. `CliTree.GenerateFileTree` and
  `CliDocument.Run` require such paths (`CliSelect.IsNormal`). All the configured patterns
  are in that form. In index.ts the paths come from walkdir under the resolved, absolute
  repository path (index.ts:62-65, 96-102); `path.normalize` leaves those unchanged as well.
  Windows paths are not modelled.
- The model enumerates `Object.keys` in plain insertion order. JavaScript enumerates
  integer-like keys such as `"1"` first, in numeric order, and treats `"__proto__"` specially;
  neither quirk is modelled.
- CliTree.Get: reads own keys only. At cli.ts:69, `currentLevel[part] || {}` also finds the
  properties a plain object inherits from `Object.prototype`. A directory named
  `constructor`, `toString`, `valueOf`, `hasOwnProperty` or the like therefore starts out as
  the shared built-in function rather than a fresh object. The code stores that function
  under the key and inserts files into it, so every directory with that name shares one set of
  entries. With `constructor/a.ts` and `src/constructor/b.ts`, the code draws both files
  under each `constructor`, where the model keeps two separate directories. Such names are
  not modelled.
- Collisions between a file and a directory of the same name, such as `a` together with
  `a/b`, are not modelled. In one order the code indexes into the leaf `true`, which throws in
  strict mode. In the other it overwrites the directory with `true`. `CliTree.BuildTree`,
  `CliTree.GenerateFileTree` and `CliDocument.Run` require a listing without them
  (`CliTree.NoCollisions`).
- `CliTree.GenerateFileTree` models the outer `forEach` over the listing as a loop. The inner
  `forEach`, which walks a `currentLevel` cursor through the nested objects and assigns in
  place, becomes the recursive function `CliTree.Insert` on tree values. Aliasing between the
  cursor and the tree is therefore not modelled.
- `CliRender.PrintFileTree` takes only directories. The code never calls it on a leaf.

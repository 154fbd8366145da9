# ecpack preload core, modelled in Dafny

This project models the logic of the ecpack uTools plugin's `public/preload.js`. The plugin packs a patch directory into a zip archive, shows the directory as a tree, and opens the first compiled `.class` file in an external decompiler (jd-gui). It models these parts:

- **Directory walks.** `getAllFile`, `getAllFileRelative` and `getAllDirbyFilename` run over an in-memory filesystem. An `Entry` is a `File`, a `Dir` with its listing in `readdirSync` order, or a `Special` entry, which is neither a file nor a directory. `getAllFile` and `getAllDirbyFilename` are methods with a loop over the listing and a recursive call for each subdirectory, like the source. `getAllFileRelative` is a single loop over `getAllFile`'s result. Each is proved equal to a reference enumeration of the tree. Lemmas about that enumeration say which paths come back and in what order.
- **The display tree.** `getAllFileRelativeJson` is a trie, `Node(seg, children)`, where `seg` stands for the source's `label`. The inner `while` loop moves a cursor down the tree. It shifts one segment at a time and pushes a new leaf when no child has that label. The cursor is modelled as the list of child indices from the root, and the push as a replacement at that position. Both loops are proved equal to a functional insertion, `Insert`. The trie properties are proved about `Insert`:
  - labels stay unique among siblings;
  - every inserted path is covered, and no node is created that is not a prefix of one;
  - a new child is only ever appended at the end;
  - inserting again changes nothing.
- **The exposed surface (`window.ecpack`).**
  - `getAllFile` returns `[]` for a null or empty directory.
  - `getTreeData` returns exactly one tree.
  - `zipDir` is modelled as a pure decision: the names it computes, the `zip` command line, and whether the stale archive is deleted.
  - `showClassSource` decides between "configure the viewer", "no class file" and running one command on the first match.

Host values come in as parameters:

- the stored settings, as `Option<string>` (`None` is `null`);
- what `readdirSync` returns for the root, as `Option<seq<Entry>>` (`None` means it throws);
- `path.sep`, `isMacOS()`, `fs.existsSync` and `path.resolve(pacPath, '..')`.

Exceptions the code lets escape are `Result.Err(TypeError | NotFound)`.

Behaviour of the code the model keeps:

- `getTreeData` has no guard for an unset pack path, so `path.resolve(null)` throws. The model returns `Err(TypeError)`.
- `getAllDirbyFilename` matches with `indexOf(fragment) > 0`. A name that starts with the fragment is not matched, and neither is any name when the fragment is empty.
- `getAllFile` follows listing order and puts each subdirectory's files where that subdirectory stands, so files and subdirectory contents interleave.
- The `.DS_Store` exclusion is a substring test on the whole path string.
- The archive is made by an external `zip -q -r` command run in the pack's parent directory.

The archive guard `workPath.split(sep).length > 1` amounts to "`workPath` contains the separator" (`Preload.ZipDir`). A resolved root such as `/` splits into two empty pieces, so the guard does not protect a filesystem root (`Preload.ZipGuardAtRoot`).

## Model

| member | source | states |
|---|---|---|
| Strings.IndexOf | public/preload.js:43 | `indexOf`: -1 or the first index where the needle occurs; the result is non-negative iff the needle occurs |
| Strings.LastIndexOf | public/preload.js:91 | `lastIndexOf` of the separator: -1 or an index holding it, with no later index holding it |
| Strings.Basename | public/preload.js:91 | `substring(lastIndexOf(sep) + 1)`: a suffix of the path that contains no separator and is preceded by one unless it is the whole path |
| Strings.Split | public/preload.js:102 | `split('/')`: at least one piece, no piece contains the separator, joining the pieces gives the string back, and there is more than one piece iff the separator occurs |
| Strings.SplitJoin | public/preload.js:102 | splitting a join of separator-free pieces gives those pieces back |
| FileSystem.NameMatchesMeans | public/preload.js:43 | `name.indexOf(fragment) > 0` holds iff the fragment occurs in the name and the name does not start with it; the empty fragment matches nothing |
| FileSystem.KeepFilesMembers | public/preload.js:65 | a path is kept iff it is one of the walk's file paths and its whole path string does not contain ".DS_Store" |
| FileSystem.FilesUnderReachable | public/preload.js:62-73 | the files enumeration holds exactly the name paths that lead from the listing to a regular file |
| FileSystem.FilesOfReachable | public/preload.js:65-72 | one entry's files are exactly the paths from it to a regular file |
| FileSystem.FilesUnderDistinct | public/preload.js:62-73 | when every listing has unique names, no file path is listed twice |
| FileSystem.FoundUnderReachable | public/preload.js:39-52 | the matches are exactly the entries, files or directories, reachable from the listing at any depth whose name matches, so recursion happens whether or not a directory matches |
| FileSystem.FoundInReachable | public/preload.js:43-50 | one entry's matches are exactly the matching paths from it |
| FileSystem.FoundUnderPrefixesFirst | public/preload.js:43-50 | when every listing has unique names, a matching directory comes before every match inside it |
| Walker.GetAllFile | public/preload.js:57-77 | the walk returns the reference file enumeration with the metadata filter applied and each path written as `dir` + sep + names: listing order, with each subdirectory's results where the subdirectory stands |
| Walker.AllFilesExactly | public/preload.js:62-76 | a string is returned iff it is the path of a reachable regular file and does not contain ".DS_Store" |
| Walker.AllFilesDistinct | public/preload.js:62-76 | when every listing has unique names, getAllFile reaches no file by the same name path twice |
| Walker.AllPathsDistinct | public/preload.js:62-76 | when every listing has unique names and no name holds the separator, getAllFile returns no path string twice |
| Walker.Relative | public/preload.js:84 | `path.relative(dir, file)` for a file below `dir`: joining `dir`, the separator and the result gives the file back |
| Walker.GetAllFileRelative | public/preload.js:80-87 | the result is each listed file's relative path, its names joined with the separator, in getAllFile's order |
| Walker.GetAllDirByFilename | public/preload.js:34-55 | the walk returns the match enumeration, with each path written as `dir` + '/' + names: a directory's own match comes before the matches inside it |
| Walker.AllMatchesExactly | public/preload.js:39-52 | a string is returned iff it is the '/'-path of a reachable entry whose name matches |
| PathTrie.FirstWithLabel | public/preload.js:112 | `filter(e => e.label === l)[0]`: the index of a child with that label, with no earlier child carrying it |
| PathTrie.Insert | public/preload.js:103-113 | descending through the segments never changes the label of the node it starts from |
| PathTrie.Built | public/preload.js:94-98 | the built tree's root carries the root name |
| PathTrie.InsertPath | public/preload.js:101-113 | the cursor loop, which shifts, finds or pushes, and descends, produces exactly `Insert` of the path's '/'-split segments |
| PathTrie.BuildTree | public/preload.js:94-115 | the outer loop, starting from a childless root, produces exactly `Built`: each path is inserted in input order |
| PathTrie.InsertAppendsAtEnd | public/preload.js:105-111 | a child is appended only when no sibling has the segment's label, and only at the end; old children keep their order and labels, and siblings with other labels are untouched |
| PathTrie.InsertExtends | public/preload.js:105-112 | inserting never removes, relabels or moves any existing node at any depth |
| PathTrie.InsertPaths | public/preload.js:103-113 | after inserting `s`, the tree's paths are exactly the old paths plus the prefixes of `s` |
| PathTrie.InsertDistinct | public/preload.js:105-112 | inserting keeps sibling labels pairwise distinct throughout the tree |
| PathTrie.InsertPresent | public/preload.js:105-112 | if siblings have distinct labels, inserting a path that is already present leaves the tree unchanged |
| PathTrie.InsertIdempotent | public/preload.js:103-113 | inserting the same path twice gives the same tree as inserting it once |
| PathTrie.BuiltPaths | public/preload.js:100-114 | the built tree's paths are exactly the root and the prefixes of the input paths: every input is covered and every other node ends a prefix of some input |
| PathTrie.BuiltDistinct | public/preload.js:100-114 | starting from the empty root, every node of the built tree has children with pairwise distinct labels |
| PathTrie.BuiltRepeat | public/preload.js:100-114 | listing a path a second time does not change the tree |
| Preload.GetAllFileRelativeJson | public/preload.js:89-116 | the tree is `Built` from the relative file paths, and its root is labelled with what follows the last `path.sep` of `dir`; sibling labels are distinct |
| Preload.DirectoryTreePaths | public/preload.js:89-115 | with separator '/' and names free of '/', the tree's paths are exactly the root and the prefixes of the listed files' segment paths |
| Preload.GetTreeData | public/preload.js:193-199 | a null pack path throws and so does an unreadable directory; otherwise the result is a sequence of exactly one tree, the directory's |
| Preload.ExposedGetAllFile | public/preload.js:122-127 | a null or empty directory gives `[]`; an unreadable directory throws; otherwise the result is getAllFile's |
| Preload.JoinPath | public/preload.js:181 | `path.join(workPath, zipName)` starts with `workPath` and ends with the archive name, adding at most one separator |
| Preload.JoinPathBasename | public/preload.js:181 | when the name holds no separator, it is the last component of the joined path: the file is directly inside the directory |
| Preload.ZipDir | public/preload.js:174-184 | a null pack path throws; otherwise the pack name is what follows the last separator and contains none, the zip name is it plus ".zip" and so ends with ".zip", the command is `zip -q -r <zip> <pack>`, the archive path starts with `workPath`, and the stale archive is deleted iff it exists and `workPath` contains the separator |
| Preload.ZipArchivePlaced | public/preload.js:179-183 | the path checked and deleted is the archive named after the pack, directly inside `workPath` |
| Preload.ZipGuardAtRoot | public/preload.js:178-183 | the root "/" splits into two pieces, so directly below the root the stale archive is deleted whenever it exists |
| Preload.ViewerAction | public/preload.js:131-144 | no viewer path notifies "configure viewer"; otherwise no first match notifies "no class file"; a command is run iff the viewer is set and there is a non-empty first match, and it is `jdDir + ' ' + file` or `'open -a ' + jdDir + ' ' + file` on macOS |
| Preload.ShowClassSource | public/preload.js:128-146 | with no viewer configured it only notifies; otherwise a null pack path or an unreadable directory throws, and the decision is made on getAllDirbyFilename's ".class" matches |
| Preload.ClassSourceLaunch | public/preload.js:134-143 | with a viewer configured, "no class file" is notified iff no reachable entry's name matches ".class"; a launch uses the first match in listing order |

## Left out

- `cmd` and `cmdInPath` (public/preload.js:6-26) spawn processes and return promises; they are not modelled. The zip command line and the viewer command are computed and returned, not run, and the "compression done" notification after the command is left out.
- The `zip` archive itself comes from an external command; there is no compression logic in the code to model.
- `fs.readdirSync` for the walked root is a parameter (`None` when it throws). A `Dir` entry always carries its listing, so the model does not capture a subdirectory that cannot be read: in the code `readdirSync` then throws inside the recursion and the whole walk throws. `fs.statSync` is the kind of each `Entry`; errors from `statSync` in the middle of a walk, symbolic links and broken links are not modelled. `fs.existsSync` is a function parameter. `fs.unlinkSync` is the `deleteStale` flag.
- `path.resolve` is not modelled. A walked directory is taken as given, as if it were already absolute and normalised, and the root label is taken from it. `path.resolve('')`, the working directory, is therefore not captured. zipDir's `path.resolve(pacPath, '..')` is the `workPath` parameter.
- Preload.JoinPath: models `path.join` only for a plain name: no doubled separator after a directory that ends in one, but no resolution of `.`, `..` or repeated separators.
- Walker.GetAllFile: writes `path.join(dir, file)` as `dir + sep + file` with no normalisation at all, so for a directory that ends in a separator (`/`, `/tmp/patch/`) the model gives `//a` or `/tmp/patch//a` where `path.join` gives `/a` or `/tmp/patch/a`. getAllDirbyFilename's `dir + '/' + file` is plain concatenation in the code too, so it is modelled exactly.
- Walker.Relative: models `path.relative` only for a file below `dir`, the only case the plugin reaches.
- The trie splits on a literal '/' while the root name uses `path.sep`. The model keeps this. With '\\' as the separator each relative path stays one segment, and DirectoryTreePaths is stated only for '/'.
- The `node-uuid` ids of tree nodes are random UI keys and are not modelled; the tree is compared by labels and children.
- The tree is a value. The in-place mutation through the aliasing `node` cursor is modelled as an index path from the root plus replacement at that path, so object identity of nodes is not captured.
- The uTools bridge is not modelled: `dbStorage`, `getNativeId`, `showOpenDialog`, `showNotification`, `shellShowItemInFolder`, `isMacOS`. With it go `savePackPath`, `getPackPath`, `saveJdPath`, `getJdPath`, `selectDir`, `selectJdDir`, `openDir`, `showNotification` and `loaded`. Stored values and the platform flag are parameters; notifications are returned as `Action`.
- src/App.jsx (the React UI) and vite.config.mjs (build configuration) are not part of this model.

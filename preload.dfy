/** The surface the plugin exposes to its UI (`window.ecpack`) and the tree builder
    getAllFileRelativeJson. The host's settings store, dialogs, notifications and
    process launcher are outside the model: what they return is passed in, and what
    the plugin would ask of them is returned. */
module Preload {
  import opened Wrappers
  import opened Strings
  import opened FileSystem
  import opened Walker
  import opened PathTrie

  // ---------------------------------------------------------------------------
  // getAllFileRelativeJson and getTreeData
  // ---------------------------------------------------------------------------

  /** getAllFileRelativeJson: the display tree of the directory `dir`, whose listing is
      `listing`. The root is labelled with what follows the last `sep` of `dir`; the
      relative file paths, joined with `sep`, are split on '/' and inserted in order. */
  method GetAllFileRelativeJson(dir: string, sep: char, listing: seq<Entry>) returns (tree: Node)
    ensures tree == Built(Basename(dir, sep), JoinEach(sep, KeepFiles(dir, sep, FilesUnder(listing))))
    ensures tree.seg == Basename(dir, sep) && Distinct(tree)
  {
    var rootName := Basename(dir, sep);
    var files := GetAllFileRelative(dir, sep, listing);
    tree := BuildTree(rootName, files);
    BuiltDistinct(rootName, files);
  }

  /** On a system whose separator is '/' and whose names contain no '/', the display
      tree's paths are exactly the prefixes of the listed files' relative paths: each
      listed file is represented, and nothing that is not a prefix of one. */
  lemma DirectoryTreePaths(dir: string, listing: seq<Entry>, p: seq<string>)
    requires NamesAvoid(listing, '/')
    ensures var kept := KeepFiles(dir, '/', FilesUnder(listing));
      HasPath(Built(Basename(dir, '/'), JoinEach('/', kept)), p) <==>
      p == [] || exists q :: q in kept && IsPrefix(p, q)
  {
    var kept := KeepFiles(dir, '/', FilesUnder(listing));
    forall i | 0 <= i < |kept| ensures Split(Join(kept[i], '/'), '/') == kept[i] {
      KeptPathSplits(dir, '/', listing, i);
    }
    BuiltFromJoined(Basename(dir, '/'), kept, p);
  }

  /** Building from '/'-joined name paths that split back into themselves covers
      exactly those name paths and their prefixes. */
  lemma BuiltFromJoined(rootName: string, ps: seq<Segments>, p: seq<string>)
    requires forall i :: 0 <= i < |ps| ==> Split(Join(ps[i], '/'), '/') == ps[i]
    ensures HasPath(Built(rootName, JoinEach('/', ps)), p) <==>
      p == [] || exists q :: q in ps && IsPrefix(p, q)
  {
    var files := JoinEach('/', ps);
    BuiltPaths(rootName, files, p);
    if exists i :: 0 <= i < |files| && IsPrefix(p, Split(files[i], '/')) {
      var i :| 0 <= i < |files| && IsPrefix(p, Split(files[i], '/'));
      assert ps[i] in ps;
    }
    if exists q :: q in ps && IsPrefix(p, q) {
      var q :| q in ps && IsPrefix(p, q);
      var i :| 0 <= i < |ps| && ps[i] == q;
      assert IsPrefix(p, Split(files[i], '/'));
    }
  }

  /** getTreeData: a sequence holding the one display tree of the stored pack path.
      There is no guard for an unset path: `path.resolve(null)` throws. */
  method GetTreeData(packPath: Option<string>, sep: char, listing: Option<seq<Entry>>)
    returns (r: Result<seq<Node>>)
    ensures packPath.None? ==> r == Err(TypeError)
    ensures packPath.Some? && listing.None? ==> r == Err(NotFound)
    ensures packPath.Some? && listing.Some? ==>
      r.Ok? && |r.value| == 1 &&
      r.value[0] == Built(Basename(packPath.value, sep),
                          JoinEach(sep, KeepFiles(packPath.value, sep, FilesUnder(listing.value))))
  {
    if packPath.None? {
      return Err(TypeError);
    }
    if listing.None? {
      return Err(NotFound);
    }
    var arr := [];
    var data := GetAllFileRelativeJson(packPath.value, sep, listing.value);
    arr := arr + [data];
    r := Ok(arr);
  }

  // ---------------------------------------------------------------------------
  // window.ecpack.getAllFile
  // ---------------------------------------------------------------------------

  /** The exposed getAllFile: nothing for a null or empty directory, otherwise the walk. */
  method ExposedGetAllFile(dir: Option<string>, sep: char, listing: Option<seq<Entry>>)
    returns (r: Result<seq<string>>)
    ensures dir.None? || dir == Some("") ==> r == Ok([])
    ensures dir.Some? && dir.value != "" && listing.None? ==> r == Err(NotFound)
    ensures dir.Some? && dir.value != "" && listing.Some? ==>
      r == Ok(Render(dir.value, sep, KeepFiles(dir.value, sep, FilesUnder(listing.value))))
  {
    if dir.None? || dir.value == "" {
      return Ok([]);
    }
    if listing.None? {
      return Err(NotFound);
    }
    var files := GetAllFile(dir.value, sep, listing.value);
    r := Ok(files);
  }

  // ---------------------------------------------------------------------------
  // zipDir
  // ---------------------------------------------------------------------------

  /** What zipDir computes before it launches the archiver. */
  datatype ZipPlan = ZipPlan(
    pacName: string,     // the pack directory's own name
    zipName: string,     // the archive's file name
    command: string,     // the shell command run in the parent directory
    archive: string,     // where the archive is written
    deleteStale: bool)   // whether an existing archive there is deleted first

  /** `path.join(dir, name)` for a plain name: the name in the directory `dir`, with no
      doubled separator when `dir` already ends with one (a root such as "/"). The
      walkers write `dir + [sep] + name` instead and do keep a doubled separator. */
  function JoinPath(dir: string, sep: char, name: string): (r: string)
    ensures EndsWith(r, name) && |r| <= |dir| + 1 + |name|
    ensures |dir| <= |r| && r[..|dir|] == dir
  {
    if EndsWith(dir, [sep]) then dir + name else dir + [sep] + name
  }

  /** The joined path's last component is the name, when the name holds no separator:
      the file is directly inside `dir`. */
  lemma JoinPathBasename(dir: string, sep: char, name: string)
    requires sep !in name
    ensures Basename(JoinPath(dir, sep, name), sep) == name
  {
    if EndsWith(dir, [sep]) {
      assert dir + name == dir[..|dir| - 1] + [sep] + name;
      BasenameAfter(dir[..|dir| - 1], sep, name);
    } else {
      BasenameAfter(dir, sep, name);
    }
  }

  /** zipDir, up to launching `zip`: `workPath` is what `path.resolve(pacPath, '..')`
      gives and `existsSync` answers `fs.existsSync`. The stale archive is deleted only when
      it exists and `workPath.split(sep)` has more than one piece (and the name ends
      with ".zip", which it always does). */
  function ZipDir(pacPath: Option<string>, sep: char, workPath: string, existsSync: string -> bool)
    : (r: Result<ZipPlan>)
    ensures pacPath.None? ==> r == Err(TypeError)
    ensures pacPath.Some? ==> r.Ok?
    ensures pacPath.Some? ==>
      var path, plan := pacPath.value, r.value;
      && sep !in plan.pacName && EndsWith(path, plan.pacName)
      && (|plan.pacName| < |path| ==> path[|path| - |plan.pacName| - 1] == sep)
      && plan.zipName == plan.pacName + ".zip" && EndsWith(plan.zipName, ".zip")
      && plan.command == "zip -q -r " + plan.zipName + " " + plan.pacName
      && plan.archive == JoinPath(workPath, sep, plan.zipName)
      && |workPath| <= |plan.archive| && plan.archive[..|workPath|] == workPath
      && (plan.deleteStale <==> existsSync(plan.archive) && sep in workPath)
  {
    match pacPath
    case None => Err(TypeError)
    case Some(path) =>
      var pacName := Basename(path, sep);
      var zipName := pacName + ".zip";
      var sh := "zip -q -r " + zipName + " " + pacName;
      var archive := JoinPath(workPath, sep, zipName);
      assert zipName[|zipName| - 4..] == ".zip";
      var delete := existsSync(archive) && |Split(workPath, sep)| > 1 && EndsWith(zipName, ".zip");
      Ok(ZipPlan(pacName, zipName, sh, archive, delete))
  }

  /** The file zipDir deletes and the command writes is the archive named after the pack,
      directly inside `workPath`. */
  lemma ZipArchivePlaced(pacPath: string, sep: char, workPath: string, existsSync: string -> bool)
    requires sep !in ".zip"
    ensures var plan := ZipDir(Some(pacPath), sep, workPath, existsSync).value;
      plan.archive[..|workPath|] == workPath && Basename(plan.archive, sep) == plan.zipName
  {
    var plan := ZipDir(Some(pacPath), sep, workPath, existsSync).value;
    assert forall j :: |plan.pacName| <= j < |plan.zipName| ==> plan.zipName[j] == ".zip"[j - |plan.pacName|];
    JoinPathBasename(workPath, sep, plan.zipName);
  }

  /** The guard does not protect a filesystem root: the root path "/" splits into two
      empty pieces, so a stale archive directly below the root is deleted like any other. */
  lemma ZipGuardAtRoot(pacPath: string, existsSync: string -> bool)
    ensures Split("/", '/') == ["", ""]
    ensures var plan := ZipDir(Some(pacPath), '/', "/", existsSync).value;
      plan.archive == "/" + plan.zipName && (plan.deleteStale <==> existsSync(plan.archive))
  {
    assert "/"[1..] == "";
    assert EndsWith("/", ['/']);
  }

  // ---------------------------------------------------------------------------
  // showClassSource
  // ---------------------------------------------------------------------------

  /** The notifications the plugin raises instead of launching the viewer. */
  datatype Notice =
    | ConfigureViewer      // "please set the jd-gui path first"
    | NoClassFile          // "no class file, nothing to decompile"

  /** What showClassSource asks of the host. */
  datatype Action = Notify(notice: Notice) | Run(command: string)

  /** A viewer path is configured: neither null nor empty. */
  predicate Configured(jdDir: Option<string>)
  {
    jdDir.Some? && jdDir.value != ""
  }

  /** The launch decision of showClassSource for the stored viewer path and the matches
      found: notify when no viewer is configured or no match is found, otherwise run the
      viewer on the first match. */
  function ViewerAction(jdDir: Option<string>, fileArr: seq<string>, isMac: bool): (a: Action)
    ensures !Configured(jdDir) ==> a == Notify(ConfigureViewer)
    ensures Configured(jdDir) && (|fileArr| == 0 || fileArr[0] == "") ==> a == Notify(NoClassFile)
    ensures a.Run? <==> Configured(jdDir) && |fileArr| > 0 && fileArr[0] != ""
    ensures a.Run? ==>
      a.command == (if isMac then "open -a " else "") + jdDir.value + " " + fileArr[0]
  {
    match jdDir
    case None => Notify(ConfigureViewer)
    case Some(jd) =>
      if jd == "" then Notify(ConfigureViewer)
      else
        var file := if |fileArr| > 0 then fileArr[0] else "";
        if file == "" then Notify(NoClassFile)
        else
          var sh := jd + " " + file;
          Run(if isMac then "open -a " + jd + " " + file else sh)
  }

  /** showClassSource: with a viewer configured, search the stored pack path for ".class"
      and decide on the matches; the search throws on a null pack path. */
  method ShowClassSource(jdDir: Option<string>, packPath: Option<string>,
                         listing: Option<seq<Entry>>, isMac: bool)
    returns (r: Result<Action>)
    ensures !Configured(jdDir) ==> r == Ok(Notify(ConfigureViewer))
    ensures Configured(jdDir) && packPath.None? ==> r == Err(TypeError)
    ensures Configured(jdDir) && packPath.Some? && listing.None? ==> r == Err(NotFound)
    ensures Configured(jdDir) && packPath.Some? && listing.Some? ==>
      r == Ok(ViewerAction(jdDir, Render(packPath.value, '/', FoundUnder(listing.value, ".class")), isMac))
  {
    if !Configured(jdDir) {
      return Ok(Notify(ConfigureViewer));
    }
    if packPath.None? {
      return Err(TypeError);
    }
    if listing.None? {
      return Err(NotFound);
    }
    var fileArr := GetAllDirByFilename(packPath.value, listing.value, ".class");
    r := Ok(ViewerAction(jdDir, fileArr, isMac));
  }

  /** With a viewer configured, the viewer is launched exactly when some entry of the pack
      directory has ".class" in its name at a positive index, and then on the first such
      entry in listing order (a directory before what is inside it). */
  lemma ClassSourceLaunch(jdDir: Option<string>, dir: string, listing: seq<Entry>, isMac: bool)
    requires Configured(jdDir)
    ensures var found := FoundUnder(listing, ".class");
      var a := ViewerAction(jdDir, Render(dir, '/', found), isMac);
      && (a == Notify(NoClassFile) <==> forall q :: IsEntryAt(listing, q) ==> !EndsInMatch(q, ".class"))
      && (a.Run? ==>
            a.command == (if isMac then "open -a " else "") + jdDir.value + " " + FullPath(dir, '/', found[0]))
  {
    var found := FoundUnder(listing, ".class");
    var fileArr := Render(dir, '/', found);
    if |found| > 0 {
      assert fileArr[0] != "" by {
        assert |fileArr[0]| >= |dir| + 1;
      }
      FoundUnderReachable(listing, ".class", found[0]);
    } else {
      forall q | IsEntryAt(listing, q) ensures !EndsInMatch(q, ".class") {
        FoundUnderReachable(listing, ".class", q);
      }
    }
  }
}

/** The recursive directory walks of the plugin: getAllFile, getAllFileRelative and
    getAllDirbyFilename. Each grows its result inside a loop over the directory's
    listing and recurses into subdirectories; each is proved equal to a reference
    enumeration of the filesystem tree. */
module Walker {
  import opened Strings
  import opened FileSystem

  /** getAllFile: the path of every regular file below `dir` whose path does not
      contain ".DS_Store", in listing order, a subdirectory's files at its place.
      `path.join(dir, file)` is written `dir + [sep] + file`: unlike `path.join` (and
      unlike Preload.JoinPath), this keeps a doubled separator when `dir` ends in one. */
  method GetAllFile(dir: string, sep: char, listing: seq<Entry>) returns (result: seq<string>)
    decreases listing
    ensures result == Render(dir, sep, KeepFiles(dir, sep, FilesUnder(listing)))
  {
    result := [];
    for i := 0 to |listing|
      invariant result == Render(dir, sep, KeepFiles(dir, sep, FilesUnder(listing[..i])))
    {
      var file := listing[i];
      var filePath := dir + [sep] + file.name;
      ghost var before := result;
      if file.File? && IndexOf(filePath, ".DS_Store") < 0 {
        result := result + [filePath];
        assert EntryFiles(dir, sep, file) == [filePath];
      }
      if file.Dir? {
        var inner := GetAllFile(filePath, sep, file.entries);
        result := result + inner;
        assert EntryFiles(dir, sep, file) == inner;
      }
      assert result == before + EntryFiles(dir, sep, file);
      FilesStep(dir, sep, listing, i);
    }
    assert listing[..|listing|] == listing;
  }

  /** path.relative(dir, file) for a file below `dir`: what follows `dir` and the separator. */
  function Relative(dir: string, sep: char, file: string): (r: string)
    requires |dir| + 1 <= |file| && file[..|dir| + 1] == dir + [sep]
    ensures dir + [sep] + r == file
  {
    file[|dir| + 1..]
  }

  /** getAllFileRelative: getAllFile's paths made relative to `dir`. */
  method GetAllFileRelative(dir: string, sep: char, listing: seq<Entry>) returns (result: seq<string>)
    ensures result == JoinEach(sep, KeepFiles(dir, sep, FilesUnder(listing)))
  {
    var files := GetAllFile(dir, sep, listing);
    ghost var paths := KeepFiles(dir, sep, FilesUnder(listing));
    result := [];
    for i := 0 to |files|
      invariant result == JoinEach(sep, paths[..i])
    {
      assert files[i] == dir + [sep] + Join(paths[i], sep);
      assert files[i][..|dir| + 1] == dir + [sep];
      result := result + [Relative(dir, sep, files[i])];
      assert paths[..i + 1] == paths[..i] + [paths[i]];
    }
    assert paths[..|files|] == paths;
  }

  /** getAllDirbyFilename: the path of every entry below `dir`, file or directory, whose
      name has `fragment` at a positive first index, in listing order, a directory
      before the matches inside it; paths are built with a literal '/'. */
  method GetAllDirByFilename(dir: string, listing: seq<Entry>, fragment: string) returns (result: seq<string>)
    decreases listing
    ensures result == Render(dir, '/', FoundUnder(listing, fragment))
  {
    result := [];
    for i := 0 to |listing|
      invariant result == Render(dir, '/', FoundUnder(listing[..i], fragment))
    {
      var file := listing[i];
      var filePath := dir + "/" + file.name;
      ghost var before, own, below := result, [], [];
      if IndexOf(file.name, fragment) > 0 {
        result := result + [filePath];
        own := [filePath];
      }
      if file.Dir? {
        var inner := GetAllDirByFilename(filePath, file.entries, fragment);
        result := result + inner;
        below := inner;
      }
      FoundLoopStep(dir, listing, fragment, i, before, own, below);
    }
    assert listing[..|listing|] == listing;
  }

  // ---------------------------------------------------------------------------
  // What the walks return
  // ---------------------------------------------------------------------------

  /** getAllFile returns exactly the paths of the regular files reachable from the
      listing whose whole path does not contain ".DS_Store". */
  lemma AllFilesExactly(dir: string, sep: char, listing: seq<Entry>, s: string)
    ensures s in Render(dir, sep, KeepFiles(dir, sep, FilesUnder(listing))) <==>
      exists q :: IsFileAt(listing, q) && s == FullPath(dir, sep, q) && !Contains(s, ".DS_Store")
  {
    var kept := KeepFiles(dir, sep, FilesUnder(listing));
    var out := Render(dir, sep, kept);
    if s in out {
      var i :| 0 <= i < |out| && out[i] == s;
      KeepFilesMembers(dir, sep, FilesUnder(listing), kept[i]);
      FilesUnderReachable(listing, kept[i]);
      assert IsFileAt(listing, kept[i]) && s == FullPath(dir, sep, kept[i]);
    }
    if exists q :: IsFileAt(listing, q) && s == FullPath(dir, sep, q) && !Contains(s, ".DS_Store") {
      var q :| IsFileAt(listing, q) && s == FullPath(dir, sep, q) && !Contains(s, ".DS_Store");
      FilesUnderReachable(listing, q);
      KeepFilesMembers(dir, sep, FilesUnder(listing), q);
      assert q in kept;
      var i :| 0 <= i < |kept| && kept[i] == q;
      assert out[i] == s;
    }
  }

  /** Keeping only some paths of a list without duplicates leaves none. */
  lemma {:induction false} KeepFilesDistinct(dir: string, sep: char, ps: seq<Segments>)
    requires NoDuplicates(ps)
    ensures NoDuplicates(KeepFiles(dir, sep, ps))
  {
    if ps != [] {
      var init, last := ps[..|ps| - 1], ps[|ps| - 1];
      KeepFilesDistinct(dir, sep, init);
      assert last !in init;
      KeepFilesMembers(dir, sep, init, last);
    }
  }

  /** On a filesystem whose listings have unique names, getAllFile lists no file's name
      path twice (see AllPathsDistinct for the path strings). */
  lemma AllFilesDistinct(dir: string, sep: char, listing: seq<Entry>)
    requires UniqueNames(listing)
    ensures NoDuplicates(KeepFiles(dir, sep, FilesUnder(listing)))
  {
    FilesUnderDistinct(listing);
    KeepFilesDistinct(dir, sep, FilesUnder(listing));
  }

  /** With unique names in every listing and no name holding the separator, getAllFile
      returns no path string twice. */
  lemma AllPathsDistinct(dir: string, sep: char, listing: seq<Entry>)
    requires UniqueNames(listing) && NamesAvoid(listing, sep)
    ensures var out := Render(dir, sep, KeepFiles(dir, sep, FilesUnder(listing)));
      forall i, j :: 0 <= i < j < |out| ==> out[i] != out[j]
  {
    var kept := KeepFiles(dir, sep, FilesUnder(listing));
    var out := Render(dir, sep, kept);
    AllFilesDistinct(dir, sep, listing);
    forall i, j | 0 <= i < j < |out| ensures out[i] != out[j] {
      KeptPathSplits(dir, sep, listing, i);
      KeptPathSplits(dir, sep, listing, j);
      assert kept[i] != kept[j];
      assert Join(kept[i], sep) != Join(kept[j], sep);
      assert out[i][|dir| + 1..] == Join(kept[i], sep);
      assert out[j][|dir| + 1..] == Join(kept[j], sep);
    }
  }

  /** A kept path, joined with a separator no name holds, splits back into its names. */
  lemma KeptPathSplits(dir: string, sep: char, listing: seq<Entry>, i: nat)
    requires NamesAvoid(listing, sep)
    requires i < |KeepFiles(dir, sep, FilesUnder(listing))|
    ensures var q := KeepFiles(dir, sep, FilesUnder(listing))[i];
      Split(Join(q, sep), sep) == q
  {
    var all := FilesUnder(listing);
    var q := KeepFiles(dir, sep, all)[i];
    KeepFilesMembers(dir, sep, all, q);
    var j :| 0 <= j < |all| && all[j] == q;
    FilesUnderAvoid(listing, sep);
    SplitJoin(q, sep);
  }

  /** getAllDirbyFilename returns exactly the paths, built with '/', of the entries
      reachable from the listing whose name has the fragment at a positive first index. */
  lemma AllMatchesExactly(dir: string, listing: seq<Entry>, fragment: string, s: string)
    ensures s in Render(dir, '/', FoundUnder(listing, fragment)) <==>
      exists q :: IsEntryAt(listing, q) && EndsInMatch(q, fragment) && s == FullPath(dir, '/', q)
  {
    var found := FoundUnder(listing, fragment);
    var out := Render(dir, '/', found);
    if s in out {
      var i :| 0 <= i < |out| && out[i] == s;
      FoundUnderReachable(listing, fragment, found[i]);
    }
    if exists q :: IsEntryAt(listing, q) && EndsInMatch(q, fragment) && s == FullPath(dir, '/', q) {
      var q :| IsEntryAt(listing, q) && EndsInMatch(q, fragment) && s == FullPath(dir, '/', q);
      FoundUnderReachable(listing, fragment, q);
      var i :| 0 <= i < |found| && found[i] == q;
      assert out[i] == s;
    }
  }

  // ---------------------------------------------------------------------------
  // One step of the walks
  // ---------------------------------------------------------------------------

  /** What getAllFile adds for the entry at index `i` of the listing. */
  lemma FilesStep(dir: string, sep: char, listing: seq<Entry>, i: nat)
    requires i < |listing|
    ensures Render(dir, sep, KeepFiles(dir, sep, FilesUnder(listing[..i + 1]))) ==
      Render(dir, sep, KeepFiles(dir, sep, FilesUnder(listing[..i]))) + EntryFiles(dir, sep, listing[i])
  {
    var e := listing[i];
    assert listing[..i + 1][..i] == listing[..i];
    assert FilesUnder(listing[..i + 1]) == FilesUnder(listing[..i]) + FilesOf(e);
    KeepFilesAppend(dir, sep, FilesUnder(listing[..i]), FilesOf(e));
    RenderAppend(dir, sep, KeepFiles(dir, sep, FilesUnder(listing[..i])), KeepFiles(dir, sep, FilesOf(e)));
    EntryFilesRendered(dir, sep, e);
  }

  /** What getAllFile's loop body adds for one entry `e` of the directory `dir`. */
  function EntryFiles(dir: string, sep: char, e: Entry): seq<string>
  {
    var filePath := dir + [sep] + e.name;
    (if e.File? && IndexOf(filePath, ".DS_Store") < 0 then [filePath] else []) +
    (if e.Dir? then Render(filePath, sep, KeepFiles(filePath, sep, FilesUnder(e.entries))) else [])
  }

  /** The loop body's contribution is the entry's part of the reference enumeration. */
  lemma EntryFilesRendered(dir: string, sep: char, e: Entry)
    ensures Render(dir, sep, KeepFiles(dir, sep, FilesOf(e))) == EntryFiles(dir, sep, e)
  {
    var filePath := dir + [sep] + e.name;
    match e
    case File(n) =>
      assert FullPath(dir, sep, [n]) == filePath;
      KeepFilesOne(dir, sep, [n]);
    case Dir(n, sub) =>
      KeepFilesUnder(dir, sep, n, FilesUnder(sub));
      var kept := KeepFiles(filePath, sep, FilesUnder(sub));
      forall k | 0 <= k < |kept| ensures |kept[k]| >= 1 {
        KeepFilesMembers(filePath, sep, FilesUnder(sub), kept[k]);
        assert kept[k] in FilesUnder(sub);
      }
      RenderUnder(dir, sep, n, kept);
    case Special(n) =>
  }

  /** What getAllDirbyFilename adds for the entry at index `i` of the listing. */
  lemma FoundStep(dir: string, listing: seq<Entry>, fragment: string, i: nat)
    requires i < |listing|
    ensures Render(dir, '/', FoundUnder(listing[..i + 1], fragment)) ==
      Render(dir, '/', FoundUnder(listing[..i], fragment)) + EntryFound(dir, listing[i], fragment)
  {
    var e := listing[i];
    assert listing[..i + 1][..i] == listing[..i];
    assert FoundUnder(listing[..i + 1], fragment) == FoundUnder(listing[..i], fragment) + FoundIn(e, fragment);
    RenderAppend(dir, '/', FoundUnder(listing[..i], fragment), FoundIn(e, fragment));
    EntryFoundRendered(dir, e, fragment);
  }

  /** One iteration of getAllDirbyFilename's loop: what it appends after the matches
      of the earlier entries are the matches of the first `i + 1` entries. */
  lemma FoundLoopStep(dir: string, listing: seq<Entry>, fragment: string, i: nat,
                      before: seq<string>, own: seq<string>, below: seq<string>)
    requires i < |listing|
    requires before == Render(dir, '/', FoundUnder(listing[..i], fragment))
    requires own == if IndexOf(listing[i].name, fragment) > 0 then [dir + "/" + listing[i].name] else []
    requires below == if listing[i].Dir? then
      Render(dir + "/" + listing[i].name, '/', FoundUnder(listing[i].entries, fragment)) else []
    ensures before + own + below == Render(dir, '/', FoundUnder(listing[..i + 1], fragment))
  {
    FoundStep(dir, listing, fragment, i);
    assert EntryFound(dir, listing[i], fragment) == own + below;
  }

  /** What getAllDirbyFilename's loop body adds for one entry `e` of the directory `dir`. */
  function EntryFound(dir: string, e: Entry, fragment: string): seq<string>
  {
    var filePath := dir + "/" + e.name;
    (if IndexOf(e.name, fragment) > 0 then [filePath] else []) +
    (if e.Dir? then Render(filePath, '/', FoundUnder(e.entries, fragment)) else [])
  }

  /** The loop body's contribution is the entry's part of the match enumeration. */
  lemma EntryFoundRendered(dir: string, e: Entry, fragment: string)
    ensures Render(dir, '/', FoundIn(e, fragment)) == EntryFound(dir, e, fragment)
  {
    var own: seq<Segments> := if NameMatches(e.name, fragment) then [[e.name]] else [];
    var rest: seq<Segments> := if e.Dir? then Under(e.name, FoundUnder(e.entries, fragment)) else [];
    assert FoundIn(e, fragment) == own + rest;
    RenderAppend(dir, '/', own, rest);
    assert FullPath(dir, '/', [e.name]) == dir + "/" + e.name;
    if e.Dir? {
      RenderUnder(dir, '/', e.name, FoundUnder(e.entries, fragment));
    }
  }

  // ---------------------------------------------------------------------------
  // Path arithmetic
  // ---------------------------------------------------------------------------

  /** Rendering distributes over concatenation. */
  lemma RenderAppend(dir: string, sep: char, a: seq<Segments>, b: seq<Segments>)
    ensures Render(dir, sep, a + b) == Render(dir, sep, a) + Render(dir, sep, b)
  {
  }

  /** The metadata exclusion distributes over concatenation. */
  lemma {:induction false} KeepFilesAppend(dir: string, sep: char, a: seq<Segments>, b: seq<Segments>)
    ensures KeepFiles(dir, sep, a + b) == KeepFiles(dir, sep, a) + KeepFiles(dir, sep, b)
  {
    if b != [] {
      var b0, last := b[..|b| - 1], b[|b| - 1];
      assert (a + b)[..|a + b| - 1] == a + b0;
      KeepFilesAppend(dir, sep, a, b0);
    } else {
      assert a + b == a;
    }
  }

  /** A path below `dir/n` is the path below `dir` that starts with `n`. */
  lemma FullPathNest(dir: string, sep: char, n: string, q: Segments)
    requires |q| >= 1
    ensures FullPath(dir + [sep] + n, sep, q) == FullPath(dir, sep, [n] + q)
  {
    assert ([n] + q)[1..] == q;
  }

  /** Rendering below a subdirectory is rendering its paths prefixed with its name. */
  lemma RenderUnder(dir: string, sep: char, n: string, ps: seq<Segments>)
    requires forall i :: 0 <= i < |ps| ==> |ps[i]| >= 1
    ensures Render(dir + [sep] + n, sep, ps) == Render(dir, sep, Under(n, ps))
  {
    forall i | 0 <= i < |ps| ensures FullPath(dir + [sep] + n, sep, ps[i]) == FullPath(dir, sep, [n] + ps[i]) {
      FullPathNest(dir, sep, n, ps[i]);
    }
  }

  /** Excluding metadata below a subdirectory agrees with excluding it below the parent. */
  lemma {:induction false} KeepFilesUnder(dir: string, sep: char, n: string, ps: seq<Segments>)
    requires forall i :: 0 <= i < |ps| ==> |ps[i]| >= 1
    ensures Under(n, KeepFiles(dir + [sep] + n, sep, ps)) == KeepFiles(dir, sep, Under(n, ps))
  {
    if ps != [] {
      var init, last := ps[..|ps| - 1], ps[|ps| - 1];
      var sub := dir + [sep] + n;
      assert ps == init + [last];
      assert Under(n, ps) == Under(n, init) + [[n] + last];
      calc {
        Under(n, KeepFiles(sub, sep, ps));
        { KeepFilesAppend(sub, sep, init, [last]); }
        Under(n, KeepFiles(sub, sep, init) + KeepFiles(sub, sep, [last]));
        { UnderAppend(n, KeepFiles(sub, sep, init), KeepFiles(sub, sep, [last])); }
        Under(n, KeepFiles(sub, sep, init)) + Under(n, KeepFiles(sub, sep, [last]));
        { KeepFilesUnder(dir, sep, n, init); KeepOneUnder(dir, sep, n, last); }
        KeepFiles(dir, sep, Under(n, init)) + KeepFiles(dir, sep, [[n] + last]);
        { KeepFilesAppend(dir, sep, Under(n, init), [[n] + last]); }
        KeepFiles(dir, sep, Under(n, ps));
      }
    }
  }

  /** The exclusion of one path below `dir/n` is the exclusion of that path, prefixed
      with `n`, below `dir`. */
  lemma KeepOneUnder(dir: string, sep: char, n: string, q: Segments)
    requires |q| >= 1
    ensures Under(n, KeepFiles(dir + [sep] + n, sep, [q])) == KeepFiles(dir, sep, [[n] + q])
  {
    FullPathNest(dir, sep, n, q);
    KeepFilesOne(dir + [sep] + n, sep, q);
    KeepFilesOne(dir, sep, [n] + q);
  }

  /** The metadata exclusion of a single path. */
  lemma KeepFilesOne(dir: string, sep: char, q: Segments)
    ensures KeepFiles(dir, sep, [q]) == if Kept(dir, sep, q) then [q] else []
  {
    assert [q][..0] == [];
  }

  /** Prefixing with a name distributes over concatenation. */
  lemma UnderAppend(n: string, a: seq<Segments>, b: seq<Segments>)
    ensures Under(n, a + b) == Under(n, a) + Under(n, b)
  {
  }
}

/** An in-memory directory tree and the paths a depth-first walk of it yields. */
module FileSystem {
  import opened Strings

  /** A directory entry, as `fs.statSync` classifies it. A directory carries its
      listing in the order `fs.readdirSync` returns it. */
  datatype Entry =
    | File(name: string)
    | Dir(name: string, entries: seq<Entry>)
    /** Neither `isFile()` nor `isDirectory()`: a socket, a FIFO or a device. */
    | Special(name: string)

  /** A relative path, one name per level. */
  type Segments = seq<string>

  /** `n` joined in front of every path of `ps`. */
  function Under(n: string, ps: seq<Segments>): (r: seq<Segments>)
    ensures |r| == |ps|
    ensures forall i :: 0 <= i < |ps| ==> r[i] == [n] + ps[i]
  {
    seq(|ps|, i requires 0 <= i < |ps| => [n] + ps[i])
  }

  /** `path.join(dir, ...)` for a path below `dir`: the names joined with `sep`. */
  function FullPath(dir: string, sep: char, p: Segments): string
  {
    dir + [sep] + Join(p, sep)
  }

  /** Every path of `ps` written out below `dir`. */
  function Render(dir: string, sep: char, ps: seq<Segments>): (r: seq<string>)
    ensures |r| == |ps|
    ensures forall i :: 0 <= i < |ps| ==> r[i] == FullPath(dir, sep, ps[i])
  {
    seq(|ps|, i requires 0 <= i < |ps| => FullPath(dir, sep, ps[i]))
  }

  /** Every path of `ps` joined with `sep`, as path.relative writes it. */
  function JoinEach(sep: char, ps: seq<Segments>): (r: seq<string>)
    ensures |r| == |ps|
    ensures forall i :: 0 <= i < |ps| ==> r[i] == Join(ps[i], sep)
  {
    seq(|ps|, i requires 0 <= i < |ps| => Join(ps[i], sep))
  }

  // ---------------------------------------------------------------------------
  // Reference enumeration of the regular files (getAllFile)
  // ---------------------------------------------------------------------------

  /** The regular files below a listing, in listing order, each directory's files
      in place of the directory; the paths are relative to the listed directory. */
  function FilesUnder(es: seq<Entry>): (r: seq<Segments>)
    ensures forall i :: 0 <= i < |r| ==> |r[i]| >= 1
  {
    if es == [] then [] else FilesUnder(es[..|es| - 1]) + FilesOf(es[|es| - 1])
  }

  /** The regular files at or below one entry, relative to its parent. */
  function FilesOf(e: Entry): (r: seq<Segments>)
    ensures forall i :: 0 <= i < |r| ==> |r[i]| >= 1 && r[i][0] == e.name
  {
    match e
    case File(n) => [[n]]
    case Dir(n, sub) => Under(n, FilesUnder(sub))
    case Special(_) => []
  }

  /** `p` leads, name by name, from the entry `e` to a regular file. */
  ghost predicate IsFileIn(e: Entry, p: Segments)
    decreases |p|, 0
  {
    |p| >= 1 && e.name == p[0] &&
    if |p| == 1 then e.File? else e.Dir? && IsFileAt(e.entries, p[1..])
  }

  /** `p` leads, name by name, from a directory with listing `es` to a regular file. */
  ghost predicate IsFileAt(es: seq<Entry>, p: Segments)
    decreases |p|, 1
  {
    exists i :: 0 <= i < |es| && IsFileIn(es[i], p)
  }

  /** The path `p`, below `dir`, passes getAllFile's metadata exclusion:
      the whole path string does not contain ".DS_Store". */
  predicate Kept(dir: string, sep: char, p: Segments)
  {
    IndexOf(FullPath(dir, sep, p), ".DS_Store") < 0
  }

  /** The paths of `ps`, in order, that pass the metadata exclusion below `dir`. */
  function KeepFiles(dir: string, sep: char, ps: seq<Segments>): seq<Segments>
  {
    if ps == [] then []
    else
      var last := ps[|ps| - 1];
      KeepFiles(dir, sep, ps[..|ps| - 1]) + (if Kept(dir, sep, last) then [last] else [])
  }

  /** The exclusion keeps exactly the paths that pass the test. */
  lemma {:induction false} KeepFilesMembers(dir: string, sep: char, ps: seq<Segments>, q: Segments)
    ensures q in KeepFiles(dir, sep, ps) <==> q in ps && Kept(dir, sep, q)
  {
    if ps != [] {
      var init := ps[..|ps| - 1];
      KeepFilesMembers(dir, sep, init, q);
      assert ps == init + [ps[|ps| - 1]];
    }
  }

  // ---------------------------------------------------------------------------
  // Reference enumeration of the name matches (getAllDirbyFilename)
  // ---------------------------------------------------------------------------

  /** getAllDirbyFilename's test `name.indexOf(fragment) > 0`. */
  predicate NameMatches(name: string, fragment: string)
  {
    IndexOf(name, fragment) > 0
  }

  /** A name matches exactly when the fragment occurs in it and the name does not start
      with it; so the empty fragment matches nothing. */
  lemma NameMatchesMeans(name: string, fragment: string)
    ensures NameMatches(name, fragment) <==> Contains(name, fragment) && !OccursAt(name, fragment, 0)
    ensures fragment == [] ==> !NameMatches(name, fragment)
  {
    assert OccursAt(name, [], 0);
  }

  /** The entries, files or directories, below a listing whose name matches,
      in listing order, a directory before the matches inside it. */
  function FoundUnder(es: seq<Entry>, fragment: string): (r: seq<Segments>)
    ensures forall i :: 0 <= i < |r| ==> |r[i]| >= 1
  {
    if es == [] then [] else FoundUnder(es[..|es| - 1], fragment) + FoundIn(es[|es| - 1], fragment)
  }

  /** The matches at or below one entry, relative to its parent. */
  function FoundIn(e: Entry, fragment: string): (r: seq<Segments>)
    ensures forall i :: 0 <= i < |r| ==> |r[i]| >= 1 && r[i][0] == e.name
  {
    (if NameMatches(e.name, fragment) then [[e.name]] else []) +
    (if e.Dir? then Under(e.name, FoundUnder(e.entries, fragment)) else [])
  }

  /** The last name of `p` matches `fragment`. */
  ghost predicate EndsInMatch(p: Segments, fragment: string)
  {
    |p| >= 1 && NameMatches(p[|p| - 1], fragment)
  }

  /** `p` leads, name by name, from the entry `e` to an entry of any kind. */
  ghost predicate IsEntryIn(e: Entry, p: Segments)
    decreases |p|, 0
  {
    |p| >= 1 && e.name == p[0] &&
    (|p| == 1 || (e.Dir? && IsEntryAt(e.entries, p[1..])))
  }

  /** `p` leads, name by name, from a directory with listing `es` to an entry. */
  ghost predicate IsEntryAt(es: seq<Entry>, p: Segments)
    decreases |p|, 1
  {
    exists i :: 0 <= i < |es| && IsEntryIn(es[i], p)
  }

  // ---------------------------------------------------------------------------
  // Well-formed trees
  // ---------------------------------------------------------------------------

  /** Names are unique within every listing, as on a real filesystem. */
  ghost predicate UniqueNames(es: seq<Entry>)
  {
    (forall i, j :: 0 <= i < j < |es| ==> es[i].name != es[j].name) &&
    forall i :: 0 <= i < |es| ==> es[i].Dir? ==> UniqueNames(es[i].entries)
  }

  /** No name anywhere in the tree contains `c`. */
  ghost predicate NamesAvoid(es: seq<Entry>, c: char)
  {
    forall i :: 0 <= i < |es| ==> c !in es[i].name && (es[i].Dir? ==> NamesAvoid(es[i].entries, c))
  }

  /** No path occurs twice. */
  ghost predicate NoDuplicates(ps: seq<Segments>)
  {
    forall i, j :: 0 <= i < j < |ps| ==> ps[i] != ps[j]
  }

  /** `p` is a proper prefix of `q`. */
  predicate ProperPrefix(p: Segments, q: Segments)
  {
    |p| < |q| && q[..|p|] == p
  }

  /** A path never comes after a path that extends it. */
  ghost predicate PrefixesFirst(ps: seq<Segments>)
  {
    forall i, j :: 0 <= i < |ps| && 0 <= j < |ps| && ProperPrefix(ps[i], ps[j]) ==> i < j
  }

  // ---------------------------------------------------------------------------
  // The enumerations are exactly the reachable paths
  // ---------------------------------------------------------------------------

  /** A listing's reference enumeration holds exactly the paths that reach a regular file. */
  lemma {:induction false} FilesUnderReachable(es: seq<Entry>, p: Segments)
    decreases es, 1
    ensures p in FilesUnder(es) <==> IsFileAt(es, p)
  {
    if es != [] {
      var init, last := es[..|es| - 1], es[|es| - 1];
      FilesUnderReachable(init, p);
      FilesOfReachable(last, p);
      assert es == init + [last];
      if IsFileAt(es, p) {
        var i :| 0 <= i < |es| && IsFileIn(es[i], p);
        if i < |init| { assert IsFileIn(init[i], p); }
      }
      if IsFileAt(init, p) {
        var i :| 0 <= i < |init| && IsFileIn(init[i], p);
        assert IsFileIn(es[i], p);
      }
    }
  }

  /** One entry's enumeration holds exactly the paths from it to a regular file. */
  lemma {:induction false} FilesOfReachable(e: Entry, p: Segments)
    decreases e, 0
    ensures p in FilesOf(e) <==> IsFileIn(e, p)
  {
    if |p| == 1 {
      assert p == [p[0]];
    }
    if e.Dir? && |p| >= 1 {
      FilesUnderReachable(e.entries, p[1..]);
      if p in FilesOf(e) {
        var i :| 0 <= i < |FilesUnder(e.entries)| && p == [e.name] + FilesUnder(e.entries)[i];
        assert p[1..] == FilesUnder(e.entries)[i];
      }
      if IsFileIn(e, p) {
        assert p == [e.name] + p[1..];
        var i :| 0 <= i < |FilesUnder(e.entries)| && FilesUnder(e.entries)[i] == p[1..];
        assert Under(e.name, FilesUnder(e.entries))[i] == p;
      }
    }
  }

  /** A listing's match enumeration holds exactly the paths that reach an entry whose
      name has the fragment at a positive first index. */
  lemma {:induction false} FoundUnderReachable(es: seq<Entry>, fragment: string, p: Segments)
    decreases es, 1
    ensures p in FoundUnder(es, fragment) <==> IsEntryAt(es, p) && EndsInMatch(p, fragment)
  {
    if es != [] {
      var init, last := es[..|es| - 1], es[|es| - 1];
      assert FoundUnder(es, fragment) == FoundUnder(init, fragment) + FoundIn(last, fragment);
      FoundUnderReachable(init, fragment, p);
      FoundInReachable(last, fragment, p);
      EntryAtLast(es, p);
    }
  }

  /** Reaching an entry from a listing: through one of its earlier entries or its last. */
  lemma EntryAtLast(es: seq<Entry>, p: Segments)
    requires es != []
    ensures IsEntryAt(es, p) <==> IsEntryAt(es[..|es| - 1], p) || IsEntryIn(es[|es| - 1], p)
  {
    var init := es[..|es| - 1];
    if IsEntryAt(es, p) {
      var i :| 0 <= i < |es| && IsEntryIn(es[i], p);
      if i < |init| { assert IsEntryIn(init[i], p); }
    }
    if IsEntryAt(init, p) {
      var i :| 0 <= i < |init| && IsEntryIn(init[i], p);
      assert IsEntryIn(es[i], p);
    }
  }

  /** One entry's match enumeration holds exactly the matching paths from it. */
  lemma {:induction false} FoundInReachable(e: Entry, fragment: string, p: Segments)
    decreases e, 0
    ensures p in FoundIn(e, fragment) <==> IsEntryIn(e, p) && EndsInMatch(p, fragment)
  {
    var own: seq<Segments> := if NameMatches(e.name, fragment) then [[e.name]] else [];
    var rest: seq<Segments> := if e.Dir? then Under(e.name, FoundUnder(e.entries, fragment)) else [];
    assert FoundIn(e, fragment) == own + rest;
    if |p| == 1 {
      assert p == [p[0]];
    }
    assert p in own <==> |p| == 1 && p[0] == e.name && NameMatches(e.name, fragment);
    if e.Dir? {
      UnderMember(e.name, FoundUnder(e.entries, fragment), p);
      if |p| >= 1 {
        FoundUnderReachable(e.entries, fragment, p[1..]);
      }
      if |p| >= 2 {
        assert p[1..][|p| - 2] == p[|p| - 1];
        assert EndsInMatch(p[1..], fragment) == EndsInMatch(p, fragment);
      }
    }
  }

  /** Membership in a list of paths prefixed with one name. */
  lemma UnderMember(n: string, ps: seq<Segments>, p: Segments)
    ensures p in Under(n, ps) <==> |p| >= 1 && p[0] == n && p[1..] in ps
  {
    if p in Under(n, ps) {
      var i :| 0 <= i < |ps| && Under(n, ps)[i] == p;
      assert p[1..] == ps[i];
    }
    if |p| >= 1 && p[0] == n && p[1..] in ps {
      var i :| 0 <= i < |ps| && ps[i] == p[1..];
      assert Under(n, ps)[i] == p;
    }
  }

  // ---------------------------------------------------------------------------
  // Well-formed trees
  // ---------------------------------------------------------------------------

  /** A path of a listing's reference enumeration starts with the name of one of its entries. */
  lemma FilesUnderHead(es: seq<Entry>, p: Segments)
    requires p in FilesUnder(es)
    ensures exists k :: 0 <= k < |es| && es[k].name == p[0]
  {
    FilesUnderReachable(es, p);
    var k :| 0 <= k < |es| && IsFileIn(es[k], p);
  }

  /** On a filesystem whose listings have unique names, no file path is listed twice. */
  lemma {:induction false} FilesUnderDistinct(es: seq<Entry>)
    requires UniqueNames(es)
    decreases es, 1
    ensures NoDuplicates(FilesUnder(es))
  {
    if es != [] {
      var init, last := es[..|es| - 1], es[|es| - 1];
      assert UniqueNames(init) by {
        forall i | 0 <= i < |init| ensures init[i] == es[i] { }
      }
      FilesUnderDistinct(init);
      FilesOfDistinct(last);
      var a, b := FilesUnder(init), FilesOf(last);
      forall i, j | 0 <= i < |a| && 0 <= j < |b| ensures a[i] != b[j] {
        FilesUnderHead(init, a[i]);
        var k :| 0 <= k < |init| && init[k].name == a[i][0];
        assert es[k].name != es[|es| - 1].name;
      }
    }
  }

  /** One entry of a filesystem with unique names lists no file path twice. */
  lemma {:induction false} FilesOfDistinct(e: Entry)
    requires e.Dir? ==> UniqueNames(e.entries)
    decreases e, 0
    ensures NoDuplicates(FilesOf(e))
  {
    if e.Dir? {
      FilesUnderDistinct(e.entries);
      var sub := FilesUnder(e.entries);
      forall i, j | 0 <= i < j < |sub| ensures [e.name] + sub[i] != [e.name] + sub[j] {
        assert ([e.name] + sub[i])[1..] == sub[i];
        assert ([e.name] + sub[j])[1..] == sub[j];
      }
    }
  }

  /** A path of a listing's match enumeration starts with the name of one of its entries. */
  lemma FoundUnderHead(es: seq<Entry>, fragment: string, p: Segments)
    requires p in FoundUnder(es, fragment)
    ensures exists k :: 0 <= k < |es| && es[k].name == p[0]
  {
    FoundUnderReachable(es, fragment, p);
    var k :| 0 <= k < |es| && IsEntryIn(es[k], p);
  }

  /** Joining two path lists keeps paths before their extensions when nothing in the
      second list is a proper prefix of something in the first. */
  lemma PrefixesFirstAppend(a: seq<Segments>, b: seq<Segments>)
    requires PrefixesFirst(a) && PrefixesFirst(b)
    requires forall i, j :: 0 <= i < |a| && 0 <= j < |b| ==> !ProperPrefix(b[j], a[i])
    ensures PrefixesFirst(a + b)
  {
    var ab := a + b;
    forall i, j | 0 <= i < |ab| && 0 <= j < |ab| && ProperPrefix(ab[i], ab[j]) ensures i < j {
      if i >= |a| && j >= |a| {
        assert ProperPrefix(b[i - |a|], b[j - |a|]);
      } else if i < |a| && j < |a| {
        assert ProperPrefix(a[i], a[j]);
      }
    }
  }

  /** Prefixing every path with one name keeps paths before their extensions. */
  lemma PrefixesFirstUnder(n: string, ps: seq<Segments>)
    requires PrefixesFirst(ps)
    ensures PrefixesFirst(Under(n, ps))
  {
    var u := Under(n, ps);
    forall i, j | 0 <= i < |u| && 0 <= j < |u| && ProperPrefix(u[i], u[j]) ensures i < j {
      assert u[i][1..] == ps[i] && u[j][1..] == ps[j];
      assert u[j][..|u[i]|][1..] == u[j][1..][..|ps[i]|];
      assert ProperPrefix(ps[i], ps[j]);
    }
  }

  /** On a filesystem whose listings have unique names, a matching directory is listed
      before every match inside it. */
  lemma {:induction false} FoundUnderPrefixesFirst(es: seq<Entry>, fragment: string)
    requires UniqueNames(es)
    decreases es, 1
    ensures PrefixesFirst(FoundUnder(es, fragment))
  {
    if es != [] {
      var init, last := es[..|es| - 1], es[|es| - 1];
      assert UniqueNames(init) by {
        forall i | 0 <= i < |init| ensures init[i] == es[i] { }
      }
      FoundUnderPrefixesFirst(init, fragment);
      FoundInPrefixesFirst(last, fragment);
      var a, b := FoundUnder(init, fragment), FoundIn(last, fragment);
      forall i, j | 0 <= i < |a| && 0 <= j < |b| ensures !ProperPrefix(b[j], a[i]) {
        FoundUnderHead(init, fragment, a[i]);
        var k :| 0 <= k < |init| && init[k].name == a[i][0];
        assert es[k].name != es[|es| - 1].name;
      }
      PrefixesFirstAppend(a, b);
    }
  }

  /** One entry's matches list a matching directory before the matches inside it. */
  lemma {:induction false} FoundInPrefixesFirst(e: Entry, fragment: string)
    requires e.Dir? ==> UniqueNames(e.entries)
    decreases e, 0
    ensures PrefixesFirst(FoundIn(e, fragment))
  {
    var own: seq<Segments> := if NameMatches(e.name, fragment) then [[e.name]] else [];
    var rest: seq<Segments> := if e.Dir? then Under(e.name, FoundUnder(e.entries, fragment)) else [];
    if e.Dir? {
      FoundUnderPrefixesFirst(e.entries, fragment);
      PrefixesFirstUnder(e.name, FoundUnder(e.entries, fragment));
    }
    forall i, j | 0 <= i < |own| && 0 <= j < |rest| ensures !ProperPrefix(rest[j], own[i]) {
      assert |rest[j]| >= 2;
    }
    PrefixesFirstAppend(own, rest);
  }

  /** When no name contains `c`, no segment of a file path contains `c`. */
  lemma {:induction false} FilesUnderAvoid(es: seq<Entry>, c: char)
    requires NamesAvoid(es, c)
    decreases es, 1
    ensures forall i, k :: 0 <= i < |FilesUnder(es)| && 0 <= k < |FilesUnder(es)[i]| ==>
      c !in FilesUnder(es)[i][k]
  {
    if es != [] {
      var init, last := es[..|es| - 1], es[|es| - 1];
      assert NamesAvoid(init, c) by {
        forall i | 0 <= i < |init| ensures init[i] == es[i] { }
      }
      FilesUnderAvoid(init, c);
      FilesOfAvoid(last, c);
    }
  }

  /** When no name at or below `e` contains `c`, no segment of its file paths does. */
  lemma {:induction false} FilesOfAvoid(e: Entry, c: char)
    requires c !in e.name && (e.Dir? ==> NamesAvoid(e.entries, c))
    decreases e, 0
    ensures forall i, k :: 0 <= i < |FilesOf(e)| && 0 <= k < |FilesOf(e)[i]| ==> c !in FilesOf(e)[i][k]
  {
    if e.Dir? {
      FilesUnderAvoid(e.entries, c);
      var sub := FilesUnder(e.entries);
      forall i, k | 0 <= i < |sub| && 0 <= k < |[e.name] + sub[i]| ensures c !in ([e.name] + sub[i])[k] {
        if k > 0 { assert ([e.name] + sub[i])[k] == sub[i][k - 1]; }
      }
    }
  }
}

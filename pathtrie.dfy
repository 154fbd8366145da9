/** The display tree built from relative file paths (getAllFileRelativeJson): a trie
    with one node per path segment, siblings in first-seen order. */
module PathTrie {
  import opened Strings

  /** A node of the display tree: its `label` (here `seg`, one path segment) and the nodes
      below it. The random `id` the UI uses as a list key carries no meaning and is not
      modelled. */
  datatype Node = Node(seg: string, children: seq<Node>)

  /** `children.map(e => e.seg)`. */
  function Labels(cs: seq<Node>): (r: seq<string>)
    ensures |r| == |cs|
    ensures forall i :: 0 <= i < |cs| ==> r[i] == cs[i].seg
  {
    seq(|cs|, i requires 0 <= i < |cs| => cs[i].seg)
  }

  /** `children.filter(e => e.label === l)[0]`, as an index: the first child labelled `l`. */
  function FirstWithLabel(cs: seq<Node>, l: string): (k: nat)
    requires l in Labels(cs)
    ensures k < |cs| && cs[k].seg == l
    ensures forall j :: 0 <= j < k ==> cs[j].seg != l
  {
    if cs[0].seg == l then 0
    else
      assert Labels(cs)[1..] == Labels(cs[1..]);
      FirstWithLabel(cs[1..], l) + 1
  }

  /** The children after the find-or-create step: a fresh leaf labelled `l` is appended
      at the end unless some child already has that label. */
  function WithChild(cs: seq<Node>, l: string): (r: seq<Node>)
    ensures l in Labels(r)
  {
    if l in Labels(cs) then cs
    else
      var r := cs + [Node(l, [])];
      assert Labels(r)[|cs|] == l;
      r
  }

  /** The effect of the inner `while` loop for the segments `segs`, from node `n`:
      find or create the child for the first segment, then go on below it. */
  function Insert(n: Node, segs: seq<string>): (r: Node)
    decreases |segs|
    ensures r.seg == n.seg
  {
    if segs == [] then n
    else
      var cs := WithChild(n.children, segs[0]);
      var k := FirstWithLabel(cs, segs[0]);
      Node(n.seg, cs[k := Insert(cs[k], segs[1..])])
  }

  /** The tree after the outer loop has inserted every path of `files`, each split on '/'. */
  function Built(rootName: string, files: seq<string>): (t: Node)
    ensures t.seg == rootName
  {
    if files == [] then Node(rootName, [])
    else Insert(Built(rootName, files[..|files| - 1]), Split(files[|files| - 1], '/'))
  }

  // ---------------------------------------------------------------------------
  // The imperative builder: a cursor walks down the tree
  // ---------------------------------------------------------------------------

  /** `cursor` is a list of child indices that leads from `t` to a node. */
  predicate ValidPath(t: Node, cursor: seq<nat>)
    decreases |cursor|
  {
    cursor == [] || (cursor[0] < |t.children| && ValidPath(t.children[cursor[0]], cursor[1..]))
  }

  /** The node that `cursor` leads to. */
  function At(t: Node, cursor: seq<nat>): Node
    requires ValidPath(t, cursor)
    decreases |cursor|
  {
    if cursor == [] then t else At(t.children[cursor[0]], cursor[1..])
  }

  /** `t` with the node that `cursor` leads to replaced by `v`: the effect of changing
      that node in place, seen from the root. */
  function Replace(t: Node, cursor: seq<nat>, v: Node): Node
    requires ValidPath(t, cursor)
    decreases |cursor|
  {
    if cursor == [] then v
    else Node(t.seg, t.children[cursor[0] := Replace(t.children[cursor[0]], cursor[1..], v)])
  }

  /** Inserting one relative path: the body of getAllFileRelativeJson's outer loop. The
      cursor `node` starts at the root; each shifted segment is looked up among the
      cursor's children, pushed as a new leaf when absent, and the cursor moves to it. */
  method InsertPath(tree: Node, e: string) returns (t: Node)
    ensures t == Insert(tree, Split(e, '/'))
  {
    t := tree;
    var cursor: seq<nat> := [];
    var nodenames := Split(e, '/');
    while |nodenames| > 0
      invariant ValidPath(t, cursor)
      invariant Replace(t, cursor, Insert(At(t, cursor), nodenames)) == Insert(tree, Split(e, '/'))
      decreases |nodenames|
    {
      ghost var t0, names := t, nodenames;
      var nodename := nodenames[0];
      nodenames := nodenames[1..];
      var node := At(t, cursor);
      if nodename !in Labels(node.children) {
        t := Replace(t, cursor, node.(children := node.children + [Node(nodename, [])]));
      } else {
        ReplaceSelf(t, cursor);
      }
      CursorStep(t0, t, cursor, names);
      cursor := cursor + [FirstWithLabel(At(t, cursor).children, nodename)];
    }
    ReplaceSelf(t, cursor);
  }

  /** The outer loop of getAllFileRelativeJson: start from a childless root and insert
      every relative path in turn. */
  method BuildTree(rootName: string, files: seq<string>) returns (tree: Node)
    ensures tree == Built(rootName, files)
  {
    tree := Node(rootName, []);
    for i := 0 to |files|
      invariant tree == Built(rootName, files[..i])
    {
      tree := InsertPath(tree, files[i]);
      assert files[..i + 1][..i] == files[..i];
    }
    assert files[..|files|] == files;
  }

  // ---------------------------------------------------------------------------
  // Cursor arithmetic
  // ---------------------------------------------------------------------------

  /** Moving the cursor one level down. */
  lemma {:induction false} AtLast(t: Node, cursor: seq<nat>, k: nat)
    requires ValidPath(t, cursor) && k < |At(t, cursor).children|
    decreases |cursor|
    ensures ValidPath(t, cursor + [k]) && At(t, cursor + [k]) == At(t, cursor).children[k]
  {
    if cursor != [] {
      assert (cursor + [k])[1..] == cursor[1..] + [k];
      AtLast(t.children[cursor[0]], cursor[1..], k);
    }
  }

  /** After a replacement, the cursor still leads to a node, the new one. */
  lemma {:induction false} ReplaceAt(t: Node, cursor: seq<nat>, v: Node)
    requires ValidPath(t, cursor)
    decreases |cursor|
    ensures ValidPath(Replace(t, cursor, v), cursor) && At(Replace(t, cursor, v), cursor) == v
  {
    if cursor != [] {
      ReplaceAt(t.children[cursor[0]], cursor[1..], v);
    }
  }

  /** Replacing a node by itself changes nothing. */
  lemma {:induction false} ReplaceSelf(t: Node, cursor: seq<nat>)
    requires ValidPath(t, cursor)
    decreases |cursor|
    ensures Replace(t, cursor, At(t, cursor)) == t
  {
    if cursor != [] {
      ReplaceSelf(t.children[cursor[0]], cursor[1..]);
      assert t.children[cursor[0] := t.children[cursor[0]]] == t.children;
    }
  }

  /** A second replacement at the same place overrides the first. */
  lemma {:induction false} ReplaceTwice(t: Node, cursor: seq<nat>, v: Node, w: Node)
    requires ValidPath(t, cursor)
    decreases |cursor|
    ensures ValidPath(Replace(t, cursor, v), cursor)
    ensures Replace(Replace(t, cursor, v), cursor, w) == Replace(t, cursor, w)
  {
    ReplaceAt(t, cursor, v);
    if cursor != [] {
      ReplaceTwice(t.children[cursor[0]], cursor[1..], v, w);
    }
  }

  /** Replacing a child of the cursor's node is replacing that node. */
  lemma {:induction false} ReplaceLast(t: Node, cursor: seq<nat>, k: nat, v: Node)
    requires ValidPath(t, cursor) && k < |At(t, cursor).children|
    decreases |cursor|
    ensures ValidPath(t, cursor + [k])
    ensures Replace(t, cursor + [k], v) ==
      Replace(t, cursor, Node(At(t, cursor).seg, At(t, cursor).children[k := v]))
  {
    AtLast(t, cursor, k);
    if cursor != [] {
      assert (cursor + [k])[1..] == cursor[1..] + [k];
      ReplaceLast(t.children[cursor[0]], cursor[1..], k, v);
    }
  }

  /** One iteration of the inner loop keeps its invariant: what the remaining segments
      will do below the cursor, seen from the root, is unchanged. */
  lemma CursorStep(t0: Node, t1: Node, cursor: seq<nat>, names: seq<string>)
    requires ValidPath(t0, cursor) && names != []
    requires t1 == Replace(t0, cursor, Node(At(t0, cursor).seg, WithChild(At(t0, cursor).children, names[0])))
    ensures ValidPath(t1, cursor) && At(t1, cursor).children == WithChild(At(t0, cursor).children, names[0])
    ensures
      var k := FirstWithLabel(At(t1, cursor).children, names[0]);
      ValidPath(t1, cursor + [k]) &&
      Replace(t1, cursor + [k], Insert(At(t1, cursor + [k]), names[1..])) ==
      Replace(t0, cursor, Insert(At(t0, cursor), names))
  {
    var node := At(t0, cursor);
    var cs := WithChild(node.children, names[0]);
    var grown := Node(node.seg, cs);
    ReplaceAt(t0, cursor, grown);
    var k := FirstWithLabel(cs, names[0]);
    AtLast(t1, cursor, k);
    var v := Insert(cs[k], names[1..]);
    ReplaceLast(t1, cursor, k, v);
    ReplaceTwice(t0, cursor, grown, Node(node.seg, cs[k := v]));
  }

  // ---------------------------------------------------------------------------
  // Properties of the tree
  // ---------------------------------------------------------------------------

  /** `p` is a prefix of `q`. */
  predicate IsPrefix(p: seq<string>, q: seq<string>)
  {
    |p| <= |q| && q[..|p|] == p
  }

  /** A non-empty path is a prefix of a non-empty one when the heads agree and the tails
      are prefixes. */
  lemma IsPrefixCons(p: seq<string>, s: seq<string>)
    requires p != [] && s != []
    ensures IsPrefix(p, s) <==> p[0] == s[0] && IsPrefix(p[1..], s[1..])
  {
    if |p| <= |s| {
      assert s[..|p|] == [s[0]] + s[1..][..|p| - 1];
      assert p == [p[0]] + p[1..];
    }
  }

  /** Following the labels of `p` down from `n` reaches a node. */
  ghost predicate HasPath(n: Node, p: seq<string>)
    decreases |p|
  {
    p == [] ||
    exists i :: 0 <= i < |n.children| && n.children[i].seg == p[0] && HasPath(n.children[i], p[1..])
  }

  /** The children of every node have pairwise distinct labels. */
  ghost predicate Distinct(n: Node)
  {
    (forall i, j :: 0 <= i < j < |n.children| ==> n.children[i].seg != n.children[j].seg) &&
    forall i :: 0 <= i < |n.children| ==> Distinct(n.children[i])
  }

  /** `r` keeps everything of `n`: the same label, and below it every child of `n` at the
      same position, itself kept; new children come only after the old ones. */
  ghost predicate Extends(r: Node, n: Node)
  {
    r.seg == n.seg && |n.children| <= |r.children| &&
    forall i :: 0 <= i < |n.children| ==> Extends(r.children[i], n.children[i])
  }

  /** The find-or-create step keeps the old children, in order, in front. */
  lemma WithChildFacts(cs: seq<Node>, l: string)
    ensures var r := WithChild(cs, l);
      |cs| <= |r| && r[..|cs|] == cs &&
      (l in Labels(cs) ==> r == cs) &&
      (l !in Labels(cs) ==> |r| == |cs| + 1 && r[|cs|] == Node(l, []) && FirstWithLabel(r, l) == |cs|)
  {
  }

  /** Inserting a path appends a child to the root only when no child has the path's
      first label, and appends it at the end; the old children keep their order and
      labels, and those with another label are untouched. */
  lemma InsertAppendsAtEnd(n: Node, s: seq<string>)
    requires s != []
    ensures var r, cs := Insert(n, s), n.children;
      |r.children| == |cs| + (if s[0] in Labels(cs) then 0 else 1) &&
      Labels(r.children)[..|cs|] == Labels(cs) &&
      (s[0] !in Labels(cs) ==> r.children[|cs|].seg == s[0]) &&
      forall i :: 0 <= i < |cs| && cs[i].seg != s[0] ==> r.children[i] == cs[i]
  {
    WithChildFacts(n.children, s[0]);
    var w := WithChild(n.children, s[0]);
    var k := FirstWithLabel(w, s[0]);
    var r := Insert(n, s);
    assert r.children == w[k := Insert(w[k], s[1..])];
    forall i | 0 <= i < |n.children| ensures r.children[i].seg == n.children[i].seg {
      assert w[i] == n.children[i];
    }
  }

  /** A node keeps itself. */
  lemma {:induction false} ExtendsSelf(n: Node)
    decreases n
    ensures Extends(n, n)
  {
    forall i | 0 <= i < |n.children| ensures Extends(n.children[i], n.children[i]) {
      ExtendsSelf(n.children[i]);
    }
  }

  /** Inserting never removes, relabels or reorders a node anywhere in the tree. */
  lemma {:induction false} InsertExtends(n: Node, s: seq<string>)
    decreases |s|
    ensures Extends(Insert(n, s), n)
  {
    if s == [] {
      ExtendsSelf(n);
    } else {
      WithChildFacts(n.children, s[0]);
      var w := WithChild(n.children, s[0]);
      var k := FirstWithLabel(w, s[0]);
      var r := Insert(n, s);
      forall i | 0 <= i < |n.children| ensures Extends(r.children[i], n.children[i]) {
        assert w[i] == n.children[i];
        if i == k {
          InsertExtends(w[k], s[1..]);
        } else {
          ExtendsSelf(n.children[i]);
        }
      }
    }
  }

  /** After inserting `s`, the paths of the tree are its old paths and the prefixes of
      `s`: the inserted path is reachable, and nothing else is created. */
  lemma {:induction false} InsertPaths(n: Node, s: seq<string>, p: seq<string>)
    decreases |s|
    ensures HasPath(Insert(n, s), p) <==> HasPath(n, p) || IsPrefix(p, s)
  {
    if s != [] && p != [] {
      WithChildFacts(n.children, s[0]);
      var w := WithChild(n.children, s[0]);
      var k := FirstWithLabel(w, s[0]);
      var r := Insert(n, s);
      assert r.children == w[k := Insert(w[k], s[1..])];
      InsertPaths(w[k], s[1..], p[1..]);
      IsPrefixCons(p, s);
      if HasPath(r, p) {
        var i :| 0 <= i < |r.children| && r.children[i].seg == p[0] && HasPath(r.children[i], p[1..]);
        if i == k {
          if k == |n.children| {
            assert w[k] == Node(s[0], []);
            if HasPath(w[k], p[1..]) {
              assert p[1..] == [];
              assert IsPrefix(p[1..], s[1..]);
            }
          } else {
            assert w[k] == n.children[k];
          }
        } else {
          assert i < |n.children|;
          assert r.children[i] == n.children[i];
        }
      }
      if HasPath(n, p) {
        var i :| 0 <= i < |n.children| && n.children[i].seg == p[0] && HasPath(n.children[i], p[1..]);
        assert w[i] == n.children[i];
        if i != k {
          assert r.children[i] == n.children[i];
        } else {
          assert r.children[k] == Insert(w[k], s[1..]);
          assert r.children[k].seg == p[0] && HasPath(r.children[k], p[1..]);
        }
      }
      if IsPrefix(p, s) {
        assert r.children[k] == Insert(w[k], s[1..]);
        assert r.children[k].seg == p[0] && HasPath(r.children[k], p[1..]);
      }

    }
  }

  /** Inserting keeps sibling labels pairwise distinct. */
  lemma {:induction false} InsertDistinct(n: Node, s: seq<string>)
    requires Distinct(n)
    decreases |s|
    ensures Distinct(Insert(n, s))
  {
    if s != [] {
      var w := WithChild(n.children, s[0]);
      var k := FirstWithLabel(w, s[0]);
      WithChildDistinct(n, s[0]);
      InsertDistinct(w[k], s[1..]);
      DistinctReplaceChild(Node(n.seg, w), k, Insert(w[k], s[1..]));
    }
  }

  /** The find-or-create step keeps sibling labels distinct. */
  lemma WithChildDistinct(n: Node, l: string)
    requires Distinct(n)
    ensures Distinct(Node(n.seg, WithChild(n.children, l)))
  {
    WithChildFacts(n.children, l);
    var w := WithChild(n.children, l);
    forall i, j | 0 <= i < j < |w| ensures w[i].seg != w[j].seg {
      if j == |n.children| {
        assert Labels(n.children)[i] == n.children[i].seg;
      } else {
        assert w[i] == n.children[i] && w[j] == n.children[j];
      }
    }
    forall i | 0 <= i < |w| ensures Distinct(w[i]) {
      if i < |n.children| {
        assert w[i] == n.children[i];
      }
    }
  }

  /** Replacing a child by a tree with the same label and distinct sibling labels keeps
      sibling labels distinct. */
  lemma DistinctReplaceChild(n: Node, k: nat, c: Node)
    requires Distinct(n) && k < |n.children|
    requires c.seg == n.children[k].seg && Distinct(c)
    ensures Distinct(Node(n.seg, n.children[k := c]))
  {
    var r := n.children[k := c];
    assert forall i :: 0 <= i < |r| ==> r[i].seg == n.children[i].seg;
  }

  /** In a tree with distinct sibling labels, inserting a path that is already present
      changes nothing. */
  lemma {:induction false} InsertPresent(n: Node, s: seq<string>)
    requires Distinct(n) && HasPath(n, s)
    decreases |s|
    ensures Insert(n, s) == n
  {
    if s != [] {
      var i :| 0 <= i < |n.children| && n.children[i].seg == s[0] && HasPath(n.children[i], s[1..]);
      assert Labels(n.children)[i] == s[0];
      WithChildFacts(n.children, s[0]);
      var k := FirstWithLabel(n.children, s[0]);
      assert k == i;
      InsertPresent(n.children[i], s[1..]);
      assert n.children[i := n.children[i]] == n.children;
    }
  }

  /** The first child with a label depends on the labels only. */
  lemma FirstWithLabelOfLabels(a: seq<Node>, b: seq<Node>, l: string)
    requires Labels(a) == Labels(b) && l in Labels(a)
    ensures FirstWithLabel(a, l) == FirstWithLabel(b, l)
  {
    var i, j := FirstWithLabel(a, l), FirstWithLabel(b, l);
    assert Labels(a)[i] == l && Labels(b)[j] == l;
  }

  /** Inserting the same path twice is inserting it once, whatever the tree. */
  lemma {:induction false} InsertIdempotent(n: Node, s: seq<string>)
    decreases |s|
    ensures Insert(Insert(n, s), s) == Insert(n, s)
  {
    if s != [] {
      var w := WithChild(n.children, s[0]);
      var k := FirstWithLabel(w, s[0]);
      var r := Insert(n, s);
      assert r.children == w[k := Insert(w[k], s[1..])];
      assert Labels(r.children) == Labels(w);
      WithChildFacts(r.children, s[0]);
      FirstWithLabelOfLabels(r.children, w, s[0]);
      InsertIdempotent(w[k], s[1..]);
      assert r.children[k := Insert(r.children[k], s[1..])] == r.children;
    }
  }

  /** The built tree's paths are exactly the prefixes of the split input paths (the
      empty prefix, the root, included): every input path is represented and every
      non-root node ends a prefix of some input path. */
  lemma {:induction false} BuiltPaths(rootName: string, files: seq<string>, p: seq<string>)
    ensures HasPath(Built(rootName, files), p) <==>
      p == [] || exists i :: 0 <= i < |files| && IsPrefix(p, Split(files[i], '/'))
  {
    if files == [] {
      assert HasPath(Node(rootName, []), p) <==> p == [];
    } else {
      var init, last := files[..|files| - 1], files[|files| - 1];
      BuiltPaths(rootName, init, p);
      InsertPaths(Built(rootName, init), Split(last, '/'), p);
      if exists i :: 0 <= i < |files| && IsPrefix(p, Split(files[i], '/')) {
        var i :| 0 <= i < |files| && IsPrefix(p, Split(files[i], '/'));
        if i < |init| {
          assert files[i] == init[i];
        }
      }
      if exists i :: 0 <= i < |init| && IsPrefix(p, Split(init[i], '/')) {
        var i :| 0 <= i < |init| && IsPrefix(p, Split(init[i], '/'));
        assert files[i] == init[i];
      }
    }
  }

  /** The built tree has pairwise distinct sibling labels at every node. */
  lemma {:induction false} BuiltDistinct(rootName: string, files: seq<string>)
    ensures Distinct(Built(rootName, files))
  {
    if files != [] {
      BuiltDistinct(rootName, files[..|files| - 1]);
      InsertDistinct(Built(rootName, files[..|files| - 1]), Split(files[|files| - 1], '/'));
    }
  }

  /** Listing a path a second time does not change the tree. */
  lemma BuiltRepeat(rootName: string, files: seq<string>, f: string)
    requires f in files
    ensures Built(rootName, files + [f]) == Built(rootName, files)
  {
    var i :| 0 <= i < |files| && files[i] == f;
    assert (files + [f])[..|files|] == files;
    BuiltDistinct(rootName, files);
    BuiltPaths(rootName, files, Split(f, '/'));
    assert IsPrefix(Split(f, '/'), Split(files[i], '/'));
    InsertPresent(Built(rootName, files), Split(f, '/'));
  }
}

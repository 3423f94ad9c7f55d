/**
 * The nested, insertion-ordered tree that both file-tree classes build from
 * `/`-separated paths, and their shared pre-order rewriting walk.
 *
 * A directory holds its children as an ordered sequence of (name, node)
 * pairs, so Python's dictionary order is explicit. The two classes differ in
 * what a node looks like as a Python value, and so in which callback results
 * are falsy: `Shape` names the two layouts.
 */
module PathTree {
  import opened Wrappers
  import opened Values
  import opened Paths

  /**
   * Compact: a directory is the dict of its children, a file a list or tuple.
   * Typed: every node is a dict with a 'type' key, a directory's children sit
   * under 'contents'.
   */
  datatype Shape = Compact | Typed

  /**
   * A directory carries its own keys other than the children (`attrs`, empty
   * in the compact layout) and its children; a file is the Python value at
   * that position.
   */
  datatype Node = Dir(attrs: seq<(Key, Value)>, entries: seq<(string, Node)>) | File(value: Value)

  type Entries = seq<(string, Node)>

  /** The node a layout creates for a directory it has not seen yet. */
  type EmptyDir = n: Node | n.Dir? && n.entries == [] witness Dir([], [])

  /** The callback of walk: None stands for a falsy return value. */
  type Callback = (string, Node) -> Option<Node>

  /** Python's truth value of a node in the given layout. */
  predicate IsTruthy(shape: Shape, n: Node) {
    match n
    case Dir(attrs, entries) => shape == Typed || |attrs| + |entries| > 0
    case File(v) => Truthy(v)
  }

  /** `callback(full_path, node) or node` */
  function Rewrite(shape: Shape, cb: Callback, path: string, n: Node): (r: Node)
    ensures r == n || cb(path, n) == Some(r)
    ensures IsTruthy(shape, r) || r == n
  {
    var c := cb(path, n);
    if c.Some? && IsTruthy(shape, c.value) then c.value else n
  }

  /** A truthy result of the callback replaces the node. */
  lemma RewriteTruthy(shape: Shape, cb: Callback, path: string, n: Node, m: Node)
    requires cb(path, n) == Some(m) && IsTruthy(shape, m)
    ensures Rewrite(shape, cb, path, n) == m
  {
  }

  /**
   * The walk descends into what the callback returned for a directory, so the
   * model requires a replacement for a directory to be a directory with the
   * same children.
   */
  ghost predicate KeepsDirectories(shape: Shape, cb: Callback) {
    forall path: string, n: Node {:trigger Rewrite(shape, cb, path, n)} ::
      n.Dir? ==> Rewrite(shape, cb, path, n).Dir? && Rewrite(shape, cb, path, n).entries == n.entries
  }

  // ---------------------------------------------------------------------
  // Addresses

  /** The node reached from `es` by following the names `t`. */
  function GetAt(es: Entries, t: seq<string>): Option<Node>
    requires |t| >= 1
    decreases |t|
  {
    var c := Get(es, t[0]);
    if |t| == 1 then c
    else if c.Some? && c.value.Dir? then GetAt(c.value.entries, t[1..])
    else None
  }

  predicate IsProperPrefix(a: seq<string>, b: seq<string>) {
    |a| < |b| && b[..|a|] == a
  }

  // ---------------------------------------------------------------------
  // Insertion (get_parent followed by `parent[name] = leaf`)

  /** The directory get_parent descends into: the existing one, or a new empty one. */
  function ChildDir(es: Entries, name: string, empty: EmptyDir): (r: Node)
    ensures r.Dir?
  {
    match Get(es, name)
    case Some(n) => if n.Dir? then n else empty
    case None => empty
  }

  /**
   * Insert `leaf` at the names `s`, creating the missing directories as
   * `empty`. Names already present keep their position; a new name goes last.
   */
  function InsertSegs(es: Entries, s: seq<string>, leaf: Node, empty: EmptyDir): (r: Entries)
    requires |s| >= 1
    ensures Keys(r) == if s[0] in Keys(es) then Keys(es) else Keys(es) + [s[0]]
    decreases |s|
  {
    if |s| == 1 then Put(es, s[0], leaf)
    else
      var child := ChildDir(es, s[0], empty);
      Put(es, s[0], child.(entries := InsertSegs(child.entries, s[1..], leaf, empty)))
  }

  /**
   * get_parent never has to descend through a file: Python would fail there
   * (a list has no `.get` entry to assign into, a file dict has no 'contents').
   */
  predicate CanInsertSegs(es: Entries, s: seq<string>)
    requires |s| >= 1
    decreases |s|
  {
    |s| == 1 ||
    match Get(es, s[0])
    case None => true
    case Some(n) => n.Dir? && CanInsertSegs(n.entries, s[1..])
  }

  /** The names a tree path installs: a trailing '/' is dropped first. */
  function SegsOf(p: string): (s: seq<string>)
    ensures |s| >= 1
  {
    Segments(StripSlash(p))
  }

  predicate EndsWithSlash(p: string) {
    p != "" && p[|p| - 1] == '/'
  }

  /** What a path installs: an empty directory after a trailing '/', else the file leaf. */
  function LeafFor(p: string, fileLeaf: Node, empty: EmptyDir): Node {
    if EndsWithSlash(p) then empty else fileLeaf
  }

  function InsertPath(es: Entries, p: string, fileLeaf: Node, empty: EmptyDir): Entries {
    InsertSegs(es, SegsOf(p), LeafFor(p, fileLeaf, empty), empty)
  }

  /** The children of the root after inserting `paths` in order. */
  function Build(paths: seq<string>, fileLeaf: Node, empty: EmptyDir): Entries {
    if paths == [] then []
    else InsertPath(Build(paths[..|paths| - 1], fileLeaf, empty), paths[|paths| - 1], fileLeaf, empty)
  }

  /** Every path is non-empty and none descends through a file inserted before it. */
  predicate Buildable(paths: seq<string>, fileLeaf: Node, empty: EmptyDir) {
    forall i :: 0 <= i < |paths| ==>
      paths[i] != "" && CanInsertSegs(Build(paths[..i], fileLeaf, empty), SegsOf(paths[i]))
  }

  /** One more path: the tree so far, with that path inserted. */
  lemma BuildStep(paths: seq<string>, i: nat, fileLeaf: Node, empty: EmptyDir)
    requires Buildable(paths, fileLeaf, empty) && i < |paths|
    ensures paths[i] != ""
    ensures CanInsertSegs(Build(paths[..i], fileLeaf, empty), SegsOf(paths[i]))
    ensures Build(paths[..i + 1], fileLeaf, empty)
            == InsertSegs(Build(paths[..i], fileLeaf, empty), SegsOf(paths[i]), LeafFor(paths[i], fileLeaf, empty), empty)
  {
    assert paths[..i + 1][..i] == paths[..i];
  }

  /** The names and the node a path installs, in the two cases the constructors test. */
  lemma LeafCases(p: string, fileLeaf: Node, empty: EmptyDir)
    requires p != ""
    ensures EndsWithSlash(p) ==> SegsOf(p) == Segments(p[..|p| - 1]) && LeafFor(p, fileLeaf, empty) == empty
    ensures !EndsWithSlash(p) ==> SegsOf(p) == Segments(p) && LeafFor(p, fileLeaf, empty) == fileLeaf
  {
  }

  /** One frame of the descent: the entries of a directory and the child name taken. */
  datatype Frame = Frame(siblings: Entries, name: string)

  /** Put the entries `cur` back as the children of the innermost frame's directory, outward. */
  function Plug(frames: seq<Frame>, cur: Entries, empty: EmptyDir): Entries
    decreases |frames|
  {
    if frames == [] then cur
    else
      var f := frames[|frames| - 1];
      Plug(frames[..|frames| - 1], Put(f.siblings, f.name, ChildDir(f.siblings, f.name, empty).(entries := cur)), empty)
  }

  /** get_parent's step: after creating a missing directory, descending into it continues the insertion. */
  lemma InsertDescend(parent: Entries, d: string, rest: seq<string>, leaf: Node, empty: EmptyDir)
    requires |rest| >= 1 && CanInsertSegs(parent, [d] + rest)
    ensures var p1 := if Get(parent, d).None? then Put(parent, d, empty) else parent;
      Get(p1, d).Some? && Get(p1, d).value.Dir? &&
      ChildDir(p1, d, empty) == Get(p1, d).value &&
      CanInsertSegs(Get(p1, d).value.entries, rest) &&
      Put(p1, d, ChildDir(p1, d, empty).(entries := InsertSegs(Get(p1, d).value.entries, rest, leaf, empty)))
        == InsertSegs(parent, [d] + rest, leaf, empty)
  {
    var s := [d] + rest;
    assert s[0] == d && s[1..] == rest;
    if Get(parent, d).None? {
      var node := empty.(entries := InsertSegs([], rest, leaf, empty));
      PutPut(parent, d, empty, node);
    }
  }

  lemma PlugSnoc(frames: seq<Frame>, f: Frame, cur: Entries, empty: EmptyDir)
    ensures var c := ChildDir(f.siblings, f.name, empty);
      Plug(frames + [f], cur, empty) == Plug(frames, Put(f.siblings, f.name, c.(entries := cur)), empty)
  {
    assert (frames + [f])[..|frames|] == frames;
  }

  /** What remains of get_parent's loop: the insertion still to do, plugged back into the frames, is the whole insertion. */
  ghost predicate Pending(root: Entries, path: string, frames: seq<Frame>, parent: Entries, rest: string,
                          leaf: Node, empty: EmptyDir) {
    CanInsertSegs(parent, Segments(rest)) &&
    Plug(frames, InsertSegs(parent, Segments(rest), leaf, empty), empty) == InsertSegs(root, Segments(path), leaf, empty)
  }

  /** One iteration of get_parent's loop keeps the insertion that remains to be done. */
  lemma DescendStep(root: Entries, path: string, frames: seq<Frame>, parent: Entries, rest: string,
                    k: int, p1: Entries, leaf: Node, empty: EmptyDir)
    requires Pending(root, path, frames, parent, rest, leaf, empty)
    requires k == FirstSlash(rest) && k >= 0
    requires p1 == if Get(parent, rest[..k]).None? then Put(parent, rest[..k], empty) else parent
    ensures Get(p1, rest[..k]).Some? && Get(p1, rest[..k]).value.Dir?
    ensures Pending(root, path, frames + [Frame(p1, rest[..k])], Get(p1, rest[..k]).value.entries, rest[k + 1..], leaf, empty)
  {
    var d, rest' := rest[..k], rest[k + 1..];
    assert Segments(rest) == [d] + Segments(rest');
    InsertDescend(parent, d, Segments(rest'), leaf, empty);
    PlugSnoc(frames, Frame(p1, d), InsertSegs(Get(p1, d).value.entries, Segments(rest'), leaf, empty), empty);
  }

  /**
   * get_parent followed by the assignment of the leaf: descend along `path`,
   * creating each missing directory, then put `leaf` under the last name.
   */
  method InsertAt(root: Entries, path: string, leaf: Node, empty: EmptyDir) returns (r: Entries)
    requires CanInsertSegs(root, Segments(path))
    ensures r == InsertSegs(root, Segments(path), leaf, empty)
  {
    var frames: seq<Frame> := [];
    var parent := root;
    var rest := path;
    while FirstSlash(rest) >= 0
      invariant Pending(root, path, frames, parent, rest, leaf, empty)
      decreases |rest|
    {
      var k := FirstSlash(rest);
      var directory := rest[..k];
      var child := Get(parent, directory);
      ghost var oldParent := parent;
      if child.None? {
        parent := Put(parent, directory, empty);
      }
      DescendStep(root, path, frames, oldParent, rest, k, parent, leaf, empty);
      frames := frames + [Frame(parent, directory)];
      parent := Get(parent, directory).value.entries;
      rest := rest[k + 1..];
    }
    assert Segments(rest) == [rest];
    r := Plug(frames, Put(parent, rest, leaf), empty);
  }

  // ---------------------------------------------------------------------
  // What insertion does, address by address

  /** Comparing two address lists that share their first name comes down to comparing their tails. */
  lemma PrefixTails(t: seq<string>, s: seq<string>)
    requires |t| >= 2 && |s| >= 2 && t[0] == s[0]
    ensures t == s <==> t[1..] == s[1..]
    ensures IsProperPrefix(t, s) <==> IsProperPrefix(t[1..], s[1..])
    ensures IsProperPrefix(s, t) <==> IsProperPrefix(s[1..], t[1..])
  {
    assert t == [t[0]] + t[1..] && s == [s[0]] + s[1..];
    ProperPrefixTail(t, s);
    ProperPrefixTail(s, t);
  }

  lemma ProperPrefixTail(a: seq<string>, b: seq<string>)
    requires |a| >= 2 && |b| >= 2 && a[0] == b[0]
    ensures IsProperPrefix(a, b) <==> IsProperPrefix(a[1..], b[1..])
  {
    if |a| < |b| {
      assert b[..|a|] == [b[0]] + b[1..][..|a| - 1];
      assert a == [a[0]] + a[1..];
    }
  }

  /**
   * After inserting at `s`: the leaf is at `s`, a directory at each proper
   * prefix of `s`, nothing below `s` (the leaf has no children), and every
   * address that diverges from `s` is as before.
   */
  lemma {:induction false} InsertSegsAt(es: Entries, s: seq<string>, leaf: Node, empty: EmptyDir, t: seq<string>)
    requires |s| >= 1 && |t| >= 1
    requires leaf.File? || leaf == empty
    requires CanInsertSegs(es, s)
    ensures t == s ==> GetAt(InsertSegs(es, s, leaf, empty), t) == Some(leaf)
    ensures IsProperPrefix(t, s) ==>
      GetAt(InsertSegs(es, s, leaf, empty), t).Some? && GetAt(InsertSegs(es, s, leaf, empty), t).value.Dir? &&
      (GetAt(InsertSegs(es, s, leaf, empty), t).value.attrs == empty.attrs ||
       (GetAt(es, t).Some? && GetAt(es, t).value.Dir? &&
        GetAt(InsertSegs(es, s, leaf, empty), t).value.attrs == GetAt(es, t).value.attrs))
    ensures IsProperPrefix(s, t) ==> GetAt(InsertSegs(es, s, leaf, empty), t) == None
    ensures t != s && !IsProperPrefix(t, s) && !IsProperPrefix(s, t) ==>
      GetAt(InsertSegs(es, s, leaf, empty), t) == GetAt(es, t)
    decreases |s|, 1
  {
    var r := InsertSegs(es, s, leaf, empty);
    if t[0] != s[0] {
      assert Get(r, t[0]) == Get(es, t[0]);
      GetAtSameHead(r, es, t);
      assert t != s && !IsProperPrefix(t, s) && !IsProperPrefix(s, t);
    } else if |s| == 1 {
      assert Get(r, t[0]) == Some(leaf);
      if |t| > 1 {
        assert IsProperPrefix(s, t) by { assert t[..1] == [t[0]] == s; }
        if leaf.Dir? {
          assert Get(leaf.entries, t[1..][0]) == None;
        }
      }
    } else if |t| == 1 {
      assert Get(r, t[0]).Some? && Get(r, t[0]).value.Dir?;
      assert IsProperPrefix(t, s) by { assert s[..1] == [s[0]] == t; }
    } else {
      InsertSegsAtBelow(es, s, leaf, empty, t);
    }
  }

  lemma GetAtSameHead(a: Entries, b: Entries, t: seq<string>)
    requires |t| >= 1 && Get(a, t[0]) == Get(b, t[0])
    ensures GetAt(a, t) == GetAt(b, t)
  {
  }

  /** The case of InsertSegsAt where both address lists go below the same first name. */
  lemma {:induction false} InsertSegsAtBelow(es: Entries, s: seq<string>, leaf: Node, empty: EmptyDir, t: seq<string>)
    requires |s| >= 2 && |t| >= 2 && t[0] == s[0]
    requires leaf.File? || leaf == empty
    requires CanInsertSegs(es, s)
    ensures t == s ==> GetAt(InsertSegs(es, s, leaf, empty), t) == Some(leaf)
    ensures IsProperPrefix(t, s) ==>
      GetAt(InsertSegs(es, s, leaf, empty), t).Some? && GetAt(InsertSegs(es, s, leaf, empty), t).value.Dir? &&
      (GetAt(InsertSegs(es, s, leaf, empty), t).value.attrs == empty.attrs ||
       (GetAt(es, t).Some? && GetAt(es, t).value.Dir? &&
        GetAt(InsertSegs(es, s, leaf, empty), t).value.attrs == GetAt(es, t).value.attrs))
    ensures IsProperPrefix(s, t) ==> GetAt(InsertSegs(es, s, leaf, empty), t) == None
    ensures t != s && !IsProperPrefix(t, s) && !IsProperPrefix(s, t) ==>
      GetAt(InsertSegs(es, s, leaf, empty), t) == GetAt(es, t)
    decreases |s|, 0
  {
    var r := InsertSegs(es, s, leaf, empty);
    var child := ChildDir(es, s[0], empty);
    var inner := InsertSegs(child.entries, s[1..], leaf, empty);
    assert Get(r, t[0]) == Some(child.(entries := inner));
    assert GetAt(r, t) == GetAt(inner, t[1..]);
    assert CanInsertSegs(child.entries, s[1..]);
    InsertSegsAt(child.entries, s[1..], leaf, empty, t[1..]);
    PrefixTails(t, s);
    if Get(es, s[0]).None? {
      assert GetAt(es, t) == None;
      assert Get(child.entries, t[1..][0]) == None;
    } else {
      assert GetAt(es, t) == GetAt(child.entries, t[1..]);
    }
  }

  /** Inserting the same path twice gives the same tree as inserting it once. */
  lemma {:induction false} InsertSegsIdempotent(es: Entries, s: seq<string>, leaf: Node, empty: EmptyDir)
    requires |s| >= 1
    ensures InsertSegs(InsertSegs(es, s, leaf, empty), s, leaf, empty) == InsertSegs(es, s, leaf, empty)
    decreases |s|
  {
    var r := InsertSegs(es, s, leaf, empty);
    if |s| == 1 {
      PutPut(es, s[0], leaf, leaf);
    } else {
      var child := ChildDir(es, s[0], empty);
      var inner := InsertSegs(child.entries, s[1..], leaf, empty);
      var node := child.(entries := inner);
      assert ChildDir(r, s[0], empty) == node;
      InsertSegsIdempotent(child.entries, s[1..], leaf, empty);
      PutPut(es, s[0], node, node);
    }
  }

  // ---------------------------------------------------------------------
  // Where each node of a built tree comes from

  /**
   * Address `t` holds a node `n` that some path of `paths` installed: a file
   * leaf exactly at the names of a path without a trailing '/', a directory
   * at a proper prefix of a path's names or exactly at a path with one.
   */
  ghost predicate Origin(paths: seq<string>, t: seq<string>, n: Node) {
    if n.File? then
      exists i :: 0 <= i < |paths| && !EndsWithSlash(paths[i]) && SegsOf(paths[i]) == t
    else
      exists i :: 0 <= i < |paths| &&
        (IsProperPrefix(t, SegsOf(paths[i])) || (EndsWithSlash(paths[i]) && SegsOf(paths[i]) == t))
  }

  lemma OriginGrows(paths: seq<string>, p: string, t: seq<string>, n: Node)
    requires Origin(paths, t, n)
    ensures Origin(paths + [p], t, n)
  {
    var ps := paths + [p];
    if n.File? {
      var i :| 0 <= i < |paths| && !EndsWithSlash(paths[i]) && SegsOf(paths[i]) == t;
      assert ps[i] == paths[i];
    } else {
      var i :| 0 <= i < |paths| &&
        (IsProperPrefix(t, SegsOf(paths[i])) || (EndsWithSlash(paths[i]) && SegsOf(paths[i]) == t));
      assert ps[i] == paths[i];
    }
  }

  /** A prefix of a list of paths the classes can insert can be inserted too. */
  lemma BuildablePrefix(paths: seq<string>, k: nat, fileLeaf: Node, empty: EmptyDir)
    requires Buildable(paths, fileLeaf, empty) && k <= |paths|
    ensures Buildable(paths[..k], fileLeaf, empty)
  {
    var init := paths[..k];
    forall i | 0 <= i < |init|
      ensures init[i] != "" && CanInsertSegs(Build(init[..i], fileLeaf, empty), SegsOf(init[i]))
    {
      assert init[..i] == paths[..i] && init[i] == paths[i];
    }
  }

  /** The fact BuildOrigins states, for one address of one list of paths. */
  ghost predicate Installed(paths: seq<string>, fileLeaf: Node, empty: EmptyDir, t: seq<string>)
    requires |t| >= 1
  {
    GetAt(Build(paths, fileLeaf, empty), t).Some? ==>
      var n := GetAt(Build(paths, fileLeaf, empty), t).value;
      (n == fileLeaf || n.Dir?) && (n.Dir? ==> n.attrs == empty.attrs) && Origin(paths, t, n)
  }

  /** Inserting one more path keeps every node accounted for. */
  lemma InstalledStep(init: seq<string>, p: string, fileLeaf: Node, empty: EmptyDir, t: seq<string>)
    requires fileLeaf.File? && |t| >= 1
    requires CanInsertSegs(Build(init, fileLeaf, empty), SegsOf(p))
    requires Installed(init, fileLeaf, empty, t)
    ensures Installed(init + [p], fileLeaf, empty, t)
  {
    var paths := init + [p];
    assert paths[..|paths| - 1] == init;
    var b := Build(init, fileLeaf, empty);
    var s := SegsOf(p);
    var leaf := LeafFor(p, fileLeaf, empty);
    InsertSegsAt(b, s, leaf, empty, t);
    var g := GetAt(Build(paths, fileLeaf, empty), t);
    if g.Some? {
      var n := g.value;
      assert paths[|paths| - 1] == p;
      if t == s {
        assert n == leaf;
      } else if IsProperPrefix(t, s) {
        assert n.Dir?;
      } else {
        OriginGrows(init, p, t, n);
      }
    }
  }

  /** Every node of a built tree is a file leaf or a directory installed by some path. */
  lemma {:induction false} BuildOrigins(paths: seq<string>, fileLeaf: Node, empty: EmptyDir, t: seq<string>)
    requires fileLeaf.File?
    requires Buildable(paths, fileLeaf, empty)
    requires |t| >= 1
    ensures Installed(paths, fileLeaf, empty, t)
    decreases |paths|
  {
    if paths != [] {
      var last := |paths| - 1;
      var init := paths[..last];
      BuildablePrefix(paths, last, fileLeaf, empty);
      BuildStep(paths, last, fileLeaf, empty);
      BuildOrigins(init, fileLeaf, empty, t);
      InstalledStep(init, paths[last], fileLeaf, empty, t);
      SplitLast(paths);
    }
  }

  // ---------------------------------------------------------------------
  // walk

  /** The entry at position `i` of directory `d` after the walk. */
  function WalkEntry(shape: Shape, cb: Callback, d: Node, parent: string, i: nat): (string, Node)
    requires d.Dir? && i < |d.entries| && KeepsDirectories(shape, cb)
    decreases d, 0
  {
    var name := d.entries[i].0;
    var n := d.entries[i].1;
    var full := Join(parent, name);
    var post := Rewrite(shape, cb, full, n);
    (name, if n.Dir? then post.(entries := Walked(shape, cb, n, full)) else post)
  }

  /** The children of directory `d`, found at `parent`, after the walk. */
  function Walked(shape: Shape, cb: Callback, d: Node, parent: string): (r: Entries)
    requires d.Dir? && KeepsDirectories(shape, cb)
    ensures Keys(r) == Keys(d.entries)
    decreases d, 1
  {
    seq(|d.entries|, i requires 0 <= i < |d.entries| => WalkEntry(shape, cb, d, parent, i))
  }

  /** The (full path, node) arguments of the callback, in the order of the calls. */
  function PreOrder(d: Node, parent: string, k: nat): seq<(string, Node)>
    requires d.Dir? && k <= |d.entries|
    decreases d, k
  {
    if k == 0 then []
    else
      var name := d.entries[k - 1].0;
      var n := d.entries[k - 1].1;
      var full := Join(parent, name);
      PreOrder(d, parent, k - 1) + [(full, n)] + (if n.Dir? then PreOrder(n, full, |n.entries|) else [])
  }

  /**
   * walk(directory, parent_path): visit the children in order, replace each
   * by the callback's truthy result, and descend into those that were
   * directories. `calls` records the arguments the callback received.
   */
  method WalkDirectory(shape: Shape, cb: Callback, d: Node, parent: string)
      returns (walked: Entries, ghost calls: seq<(string, Node)>)
    requires d.Dir? && KeepsDirectories(shape, cb)
    ensures walked == Walked(shape, cb, d, parent)
    ensures calls == PreOrder(d, parent, |d.entries|)
    decreases d
  {
    walked := d.entries;
    calls := [];
    for i := 0 to |d.entries|
      invariant |walked| == |d.entries|
      invariant forall j :: 0 <= j < i ==> walked[j] == WalkEntry(shape, cb, d, parent, j)
      invariant walked[i..] == d.entries[i..]
      invariant calls == PreOrder(d, parent, i)
    {
      ghost var before := walked;
      var name := walked[i].0;
      var node := walked[i].1;
      assert node == d.entries[i].1 && name == d.entries[i].0 by {
        assert walked[i..][0] == d.entries[i..][0];
      }
      var full := Join(parent, name);
      calls := calls + [(full, node)];
      if node.Dir? {
        var post := Rewrite(shape, cb, full, node);
        walked := walked[i := (name, post)];
        // The callback kept the children, so walking `post` walks those of `node`.
        var inner, innerCalls := WalkDirectory(shape, cb, node, full);
        walked := walked[i := (name, post.(entries := inner))];
        calls := calls + innerCalls;
      } else {
        walked := walked[i := (name, Rewrite(shape, cb, full, node))];
      }
      assert walked[i + 1..] == d.entries[i + 1..] by {
        forall j | i + 1 <= j < |walked| ensures walked[j] == d.entries[j] {
          assert walked[j] == before[j] == before[i..][j - i];
        }
      }
    }
    assert walked == Walked(shape, cb, d, parent);
  }

  /**
   * Every node of the tree is still at its address after the walk, rewritten
   * by the callback with the full path of that address; a directory keeps
   * the names of its children, in order.
   */
  lemma {:induction false} WalkedAt(shape: Shape, cb: Callback, d: Node, parent: string, t: seq<string>)
    requires d.Dir? && KeepsDirectories(shape, cb) && |t| >= 1
    ensures GetAt(d.entries, t).Some? ==>
      GetAt(Walked(shape, cb, d, parent), t).Some? &&
      var n := GetAt(d.entries, t).value;
      var m := GetAt(Walked(shape, cb, d, parent), t).value;
      var post := Rewrite(shape, cb, JoinFrom(parent, t), n);
      if n.Dir? then m.Dir? && m.attrs == post.attrs && Keys(m.entries) == Keys(n.entries)
      else m == post
    decreases |t|
  {
    var w := Walked(shape, cb, d, parent);
    var i := IndexOf(Keys(d.entries), t[0]);
    if 0 <= i {
      assert IndexOf(Keys(w), t[0]) == i;
      var n0 := d.entries[i].1;
      var full := Join(parent, t[0]);
      assert d.entries[i].0 == Keys(d.entries)[i] == t[0];
      assert Get(w, t[0]) == Some(WalkEntry(shape, cb, d, parent, i).1);
      var post := Rewrite(shape, cb, full, n0);
      assert JoinFrom(parent, t) == JoinFrom(full, t[1..]);
      if n0.Dir? {
        assert post.Dir? && post.entries == n0.entries;
        if |t| > 1 {
          WalkedAt(shape, cb, n0, full, t[1..]);
        }
      }
    }
  }

  /**
   * A callback whose every result is falsy or the node it was given leaves
   * the tree as it was.
   */
  lemma {:induction false} WalkIdentity(shape: Shape, cb: Callback, d: Node, parent: string)
    requires d.Dir?
    requires forall path: string, n: Node :: cb(path, n) == None || cb(path, n) == Some(n)
    ensures KeepsDirectories(shape, cb)
    ensures Walked(shape, cb, d, parent) == d.entries
    decreases d
  {
    var w := Walked(shape, cb, d, parent);
    forall i | 0 <= i < |d.entries| ensures w[i] == d.entries[i] {
      var n := d.entries[i].1;
      var full := Join(parent, d.entries[i].0);
      assert w[i] == WalkEntry(shape, cb, d, parent, i);
      assert Rewrite(shape, cb, full, n) == n;
      if n.Dir? {
        WalkIdentity(shape, cb, n, full);
      }
    }
  }

  lemma PreOrderGrows(d: Node, parent: string, j: nat, k: nat, x: (string, Node))
    requires d.Dir? && j <= k <= |d.entries|
    requires x in PreOrder(d, parent, j)
    ensures x in PreOrder(d, parent, k)
    decreases k
  {
    if j < k {
      PreOrderGrows(d, parent, j, k - 1, x);
    }
  }

  /** walk hands every node to the callback, with the full path of its address. */
  lemma {:induction false} PreOrderVisits(d: Node, parent: string, t: seq<string>)
    requires d.Dir? && |t| >= 1 && GetAt(d.entries, t).Some?
    ensures (JoinFrom(parent, t), GetAt(d.entries, t).value) in PreOrder(d, parent, |d.entries|)
    decreases |t|
  {
    var i := IndexOf(Keys(d.entries), t[0]);
    var n0 := d.entries[i].1;
    var full := Join(parent, t[0]);
    assert d.entries[i].0 == Keys(d.entries)[i] == t[0];
    assert JoinFrom(parent, t) == JoinFrom(full, t[1..]);
    var calls := PreOrder(d, parent, i + 1);
    var here := PreOrder(d, parent, i) + [(full, n0)];
    assert calls == here + (if n0.Dir? then PreOrder(n0, full, |n0.entries|) else []);
    if |t| == 1 {
      assert (full, n0) in here;
      PreOrderGrows(d, parent, i + 1, |d.entries|, (full, n0));
    } else {
      PreOrderVisits(n0, full, t[1..]);
      var x := (JoinFrom(parent, t), GetAt(d.entries, t).value);
      assert x in calls;
      PreOrderGrows(d, parent, i + 1, |d.entries|, x);
    }
  }

  // ---------------------------------------------------------------------
  // Each node once

  /** No two children of a directory share a name. */
  predicate DistinctNames(es: Entries) {
    forall i, j :: 0 <= i < j < |es| ==> es[i].0 != es[j].0
  }

  /** No two children of a directory share a name, at any depth, as in a Python dict. */
  ghost predicate UniqueNames(d: Node)
    decreases d
  {
    d.Dir? ==> DistinctNames(d.entries) && forall i :: 0 <= i < |d.entries| ==> UniqueNames(d.entries[i].1)
  }

  /** The children of a directory with unique names. */
  ghost predicate UniqueEntries(es: Entries) {
    DistinctNames(es) && forall i :: 0 <= i < |es| ==> UniqueNames(es[i].1)
  }

  /** The address (the names from the root down) of each node PreOrder lists, in the same order. */
  ghost function Addresses(d: Node, k: nat): seq<seq<string>>
    requires d.Dir? && k <= |d.entries|
    decreases d, k
  {
    if k == 0 then []
    else
      var name := d.entries[k - 1].0;
      var n := d.entries[k - 1].1;
      Addresses(d, k - 1) + [[name]] + (if n.Dir? then Under(name, Addresses(n, |n.entries|)) else [])
  }

  /** The addresses `ts`, each moved one directory down, below `name`. */
  ghost function Under(name: string, ts: seq<seq<string>>): (r: seq<seq<string>>)
    ensures |r| == |ts| && forall i :: 0 <= i < |ts| ==> r[i] == [name] + ts[i]
  {
    seq(|ts|, i requires 0 <= i < |ts| => [name] + ts[i])
  }

  /** A call of the walk made at address `t` below `es`: that node, with its joined path. */
  ghost predicate AddressedCall(es: Entries, parent: string, t: seq<string>, call: (string, Node)) {
    |t| >= 1 && GetAt(es, t).Some? && call == (JoinFrom(parent, t), GetAt(es, t).value)
  }

  ghost predicate AllAddressed(es: Entries, parent: string, ts: seq<seq<string>>, calls: seq<(string, Node)>) {
    |ts| == |calls| && forall i :: 0 <= i < |ts| ==> AddressedCall(es, parent, ts[i], calls[i])
  }

  predicate NoRepeats(ts: seq<seq<string>>) {
    forall i, j :: 0 <= i < j < |ts| ==> ts[i] != ts[j]
  }

  /** Every address starts with one of `names`. */
  predicate HeadsIn(ts: seq<seq<string>>, names: seq<string>) {
    forall i :: 0 <= i < |ts| ==> |ts[i]| >= 1 && ts[i][0] in names
  }

  /** In a directory with unique names, looking a child's name up finds that child. */
  lemma GetUnique(es: Entries, i: nat)
    requires i < |es| && DistinctNames(es)
    ensures Get(es, es[i].0) == Some(es[i].1)
  {
    assert Keys(es)[i] == es[i].0;
  }

  /** The first name of an address picks the child it goes through. */
  lemma GetAtHead(es: Entries, t: seq<string>) returns (i: nat)
    requires |t| >= 1 && GetAt(es, t).Some?
    ensures i < |es| && es[i].0 == t[0]
    ensures |t| == 1 ==> GetAt(es, t).value == es[i].1
    ensures |t| > 1 ==> es[i].1.Dir? && GetAt(es[i].1.entries, t[1..]) == GetAt(es, t)
  {
    i := IndexOf(Keys(es), t[0]);
    assert es[i].0 == Keys(es)[i];
  }

  /** The calls below a child directory, seen from its parent. */
  lemma UnderAddressed(es: Entries, parent: string, name: string, n: Node,
                       sub: seq<seq<string>>, subCalls: seq<(string, Node)>)
    requires Get(es, name) == Some(n) && n.Dir?
    requires AllAddressed(n.entries, Join(parent, name), sub, subCalls)
    ensures AllAddressed(es, parent, Under(name, sub), subCalls)
  {
    var u := Under(name, sub);
    forall i | 0 <= i < |u| ensures AddressedCall(es, parent, u[i], subCalls[i]) {
      var t := sub[i];
      assert AddressedCall(n.entries, Join(parent, name), t, subCalls[i]);
      assert u[i][0] == name && u[i][1..] == t;
    }
  }

  /** The call for a child itself. */
  lemma OneAddressed(es: Entries, parent: string, name: string, n: Node)
    requires Get(es, name) == Some(n)
    ensures AllAddressed(es, parent, [[name]], [(Join(parent, name), n)])
  {
    var t := [name];
    assert t[0] == name && t[1..] == [];
    assert GetAt(es, t) == Some(n);
    assert JoinFrom(parent, t) == JoinFrom(Join(parent, name), []);
  }

  lemma AppendAddressed(es: Entries, parent: string, a: seq<seq<string>>, ca: seq<(string, Node)>,
                        b: seq<seq<string>>, cb: seq<(string, Node)>)
    requires AllAddressed(es, parent, a, ca) && AllAddressed(es, parent, b, cb)
    ensures AllAddressed(es, parent, a + b, ca + cb)
  {
    forall i | 0 <= i < |a + b| ensures AddressedCall(es, parent, (a + b)[i], (ca + cb)[i]) {
      if i >= |a| {
        assert (a + b)[i] == b[i - |a|] && (ca + cb)[i] == cb[i - |a|];
      }
    }
  }

  /** Addresses below `name`, after `[name]` itself, after addresses that avoid `name`, do not repeat. */
  lemma StepNoRepeats(ts0: seq<seq<string>>, names: seq<string>, name: string, sub: seq<seq<string>>)
    requires NoRepeats(ts0) && HeadsIn(ts0, names) && name !in names
    requires NoRepeats(sub)
    requires forall i :: 0 <= i < |sub| ==> |sub[i]| >= 1
    ensures NoRepeats(ts0 + [[name]] + Under(name, sub))
    ensures HeadsIn(ts0 + [[name]] + Under(name, sub), names + [name])
  {
    var u := Under(name, sub);
    var ts := ts0 + [[name]] + u;
    var m := |ts0| + 1;
    forall i | 0 <= i < |ts|
      ensures |ts[i]| >= 1 && ts[i][0] in names + [name]
      ensures i < m - 1 ==> ts[i] == ts0[i] && ts[i][0] != name
      ensures i == m - 1 ==> ts[i] == [name]
      ensures i >= m ==> |ts[i]| >= 2 && ts[i][0] == name && ts[i][1..] == sub[i - m]
    {
      if i >= m {
        assert ts[i] == u[i - m] == [name] + sub[i - m];
      }
    }
    forall i, j | 0 <= i < j < |ts| ensures ts[i] != ts[j] {
      if i >= m {
        assert ts[i][1..] != ts[j][1..];
      }
    }
  }

  lemma AddressesGrows(d: Node, j: nat, k: nat, t: seq<string>)
    requires d.Dir? && j <= k <= |d.entries|
    requires t in Addresses(d, j)
    ensures t in Addresses(d, k)
    decreases k
  {
    if j < k {
      AddressesGrows(d, j, k - 1, t);
    }
  }

  /**
   * Every call of the walk is at the address of a node of the tree, with that
   * node and its joined path; no address is listed twice.
   */
  lemma {:induction false} PreOrderAddresses(d: Node, parent: string, k: nat)
    requires d.Dir? && UniqueNames(d) && k <= |d.entries|
    ensures AllAddressed(d.entries, parent, Addresses(d, k), PreOrder(d, parent, k))
    ensures NoRepeats(Addresses(d, k)) && HeadsIn(Addresses(d, k), Keys(d.entries)[..k])
    decreases d, k
  {
    if k > 0 {
      var es := d.entries;
      var name, n := es[k - 1].0, es[k - 1].1;
      var full := Join(parent, name);
      PreOrderAddresses(d, parent, k - 1);
      GetUnique(es, k - 1);
      var sub := if n.Dir? then Addresses(n, |n.entries|) else [];
      var subCalls := if n.Dir? then PreOrder(n, full, |n.entries|) else [];
      if n.Dir? {
        assert UniqueNames(n);
        PreOrderAddresses(n, full, |n.entries|);
        UnderAddressed(es, parent, name, n, sub, subCalls);
      }
      OneAddressed(es, parent, name, n);
      AppendAddressed(es, parent, Addresses(d, k - 1), PreOrder(d, parent, k - 1), [[name]], [(full, n)]);
      AppendAddressed(es, parent, Addresses(d, k - 1) + [[name]], PreOrder(d, parent, k - 1) + [(full, n)],
                      Under(name, sub), subCalls);
      assert Keys(es)[..k] == Keys(es)[..k - 1] + [name];
      assert name !in Keys(es)[..k - 1] by {
        var before := Keys(es)[..k - 1];
        forall i | 0 <= i < |before| ensures before[i] != name {
          assert before[i] == es[i].0;
        }
      }
      StepNoRepeats(Addresses(d, k - 1), Keys(es)[..k - 1], name, sub);
    }
  }

  /** Every node of the tree has its address among the walk's. */
  lemma {:induction false} AddressesCover(d: Node, t: seq<string>)
    requires d.Dir? && |t| >= 1 && GetAt(d.entries, t).Some?
    ensures t in Addresses(d, |d.entries|)
    decreases |t|
  {
    var i := GetAtHead(d.entries, t);
    if |t| > 1 {
      AddressesCover(d.entries[i].1, t[1..]);
    }
    ChildAddresses(d, i, t);
    AddressesGrows(d, i + 1, |d.entries|, t);
  }

  /** The child at `i` and every address below it are among the first `i + 1` children's addresses. */
  lemma ChildAddresses(d: Node, i: nat, t: seq<string>)
    requires d.Dir? && i < |d.entries| && |t| >= 1 && t[0] == d.entries[i].0
    requires |t| > 1 ==> d.entries[i].1.Dir? && t[1..] in Addresses(d.entries[i].1, |d.entries[i].1.entries|)
    ensures t in Addresses(d, i + 1)
  {
    var n0 := d.entries[i].1;
    var sub := if n0.Dir? then Addresses(n0, |n0.entries|) else [];
    assert Addresses(d, i + 1) == Addresses(d, i) + [[t[0]]] + Under(t[0], sub);
    if |t| == 1 {
      assert t == [t[0]];
    } else {
      var j :| 0 <= j < |sub| && sub[j] == t[1..];
      assert Under(t[0], sub)[j] == [t[0]] + t[1..] == t;
    }
  }

  /**
   * In a tree with unique names, the walk calls the callback exactly once
   * per node: the calls and the nodes' addresses correspond one to one, in
   * pre-order, each call with the node and its joined path.
   */
  lemma PreOrderOnce(d: Node, parent: string)
    requires d.Dir? && UniqueNames(d)
    ensures var ts, calls := Addresses(d, |d.entries|), PreOrder(d, parent, |d.entries|);
      |ts| == |calls| &&
      (forall t :: |t| >= 1 && GetAt(d.entries, t).Some? ==>
         exists i :: 0 <= i < |ts| && ts[i] == t &&
           calls[i] == (JoinFrom(parent, t), GetAt(d.entries, t).value)) &&
      (forall i :: 0 <= i < |ts| ==>
         |ts[i]| >= 1 && GetAt(d.entries, ts[i]).Some? &&
         calls[i] == (JoinFrom(parent, ts[i]), GetAt(d.entries, ts[i]).value)) &&
      (forall i, j :: 0 <= i < j < |ts| ==> ts[i] != ts[j])
  {
    var ts, calls := Addresses(d, |d.entries|), PreOrder(d, parent, |d.entries|);
    PreOrderAddresses(d, parent, |d.entries|);
    CallsAtAddresses(d.entries, parent, ts, calls);
    NodesCalled(d, parent, ts, calls);
  }

  lemma CallsAtAddresses(es: Entries, parent: string, ts: seq<seq<string>>, calls: seq<(string, Node)>)
    requires AllAddressed(es, parent, ts, calls)
    ensures forall i :: 0 <= i < |ts| ==>
      |ts[i]| >= 1 && GetAt(es, ts[i]).Some? && calls[i] == (JoinFrom(parent, ts[i]), GetAt(es, ts[i]).value)
  {
    forall i | 0 <= i < |ts|
      ensures |ts[i]| >= 1 && GetAt(es, ts[i]).Some?
      ensures calls[i] == (JoinFrom(parent, ts[i]), GetAt(es, ts[i]).value)
    {
      assert AddressedCall(es, parent, ts[i], calls[i]);
    }
  }

  lemma NodesCalled(d: Node, parent: string, ts: seq<seq<string>>, calls: seq<(string, Node)>)
    requires d.Dir? && ts == Addresses(d, |d.entries|) && AllAddressed(d.entries, parent, ts, calls)
    ensures forall t :: |t| >= 1 && GetAt(d.entries, t).Some? ==>
      exists i :: 0 <= i < |ts| && ts[i] == t && calls[i] == (JoinFrom(parent, t), GetAt(d.entries, t).value)
  {
    forall t | |t| >= 1 && GetAt(d.entries, t).Some?
      ensures exists i :: 0 <= i < |ts| && ts[i] == t && calls[i] == (JoinFrom(parent, t), GetAt(d.entries, t).value)
    {
      AddressesCover(d, t);
      var i :| 0 <= i < |ts| && ts[i] == t;
      assert AddressedCall(d.entries, parent, ts[i], calls[i]);
    }
  }

  // ---------------------------------------------------------------------
  // Insertion keeps names unique

  lemma {:induction false} InsertSegsUnique(es: Entries, s: seq<string>, leaf: Node, empty: EmptyDir)
    requires |s| >= 1 && UniqueEntries(es)
    requires leaf.File? || leaf == empty
    ensures UniqueEntries(InsertSegs(es, s, leaf, empty))
    decreases |s|
  {
    if |s| == 1 {
      PutUnique(es, s[0], leaf);
    } else {
      var child := ChildDir(es, s[0], empty);
      if Get(es, s[0]).Some? && Get(es, s[0]).value.Dir? {
        GetEntry(es, s[0]);
        var i :| 0 <= i < |es| && es[i] == (s[0], Get(es, s[0]).value);
        assert UniqueNames(es[i].1);
      }
      InsertSegsUnique(child.entries, s[1..], leaf, empty);
      PutUnique(es, s[0], child.(entries := InsertSegs(child.entries, s[1..], leaf, empty)));
    }
  }

  /** Assigning a child whose own names are unique keeps the names unique. */
  lemma PutUnique(es: Entries, name: string, v: Node)
    requires UniqueEntries(es) && (v.Dir? ==> UniqueEntries(v.entries))
    ensures UniqueEntries(Put(es, name, v))
  {
    var r := Put(es, name, v);
    PutEntries(es, name, v);
    forall i, j | 0 <= i < j < |r| ensures r[i].0 != r[j].0 {
      assert Keys(r)[i] == r[i].0 && Keys(r)[j] == r[j].0;
      if j < |es| {
        assert Keys(es)[i] == es[i].0 && Keys(es)[j] == es[j].0;
      } else {
        assert Keys(es)[i] == es[i].0;
      }
    }
    forall i | 0 <= i < |r| ensures UniqueNames(r[i].1) {
      assert r[i] in r;
      if r[i] != (name, v) {
        var j :| 0 <= j < |es| && es[j] == r[i];
      }
    }
  }

  /** The tree the constructors build has unique names. */
  lemma {:induction false} BuildUnique(paths: seq<string>, fileLeaf: Node, empty: EmptyDir)
    requires fileLeaf.File?
    ensures UniqueEntries(Build(paths, fileLeaf, empty))
    ensures forall attrs :: UniqueNames(Dir(attrs, Build(paths, fileLeaf, empty)))
    decreases |paths|
  {
    if paths != [] {
      var p := paths[|paths| - 1];
      BuildUnique(paths[..|paths| - 1], fileLeaf, empty);
      InsertSegsUnique(Build(paths[..|paths| - 1], fileLeaf, empty), SegsOf(p), LeafFor(p, fileLeaf, empty), empty);
    }
  }
}

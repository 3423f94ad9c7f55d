/**
 * The two file-tree classes of deluge/ui/common.py. FileTree keeps the compact
 * layout (a directory is the dict of its children, a file a list, turned
 * into a tuple by get_tree); FileTree2 keeps the typed layout (every node is a
 * dict with a 'type' key, a directory's children under 'contents').
 */
module FileTrees {
  import opened Wrappers
  import opened Values
  import opened Paths
  import opened PathTree

  // ---------------------------------------------------------------------
  // The nodes each layout creates

  /** FileTree's new file: `[]`. */
  const ListLeaf: Node := File(List([]))

  /** FileTree's new directory: `{}`. */
  const CompactDir: EmptyDir := Dir([], [])

  function TypeTag(t: string): (Key, Value) {
    (SKey("type"), Str(t))
  }

  /** FileTree2's new file: `{'type': 'file'}`. */
  const TypedLeaf: Node := File(Dict([TypeTag("file")]))

  /** FileTree2's new directory: `{'type': 'dir', 'contents': {}}`. */
  const TypedDir: EmptyDir := Dir([TypeTag("dir")], [])

  // ---------------------------------------------------------------------
  // get_tree's to_tuple

  /**
   * `tuple(item)`: the elements of a list or tuple, the one-character strings
   * of a text string, the integers of a byte string. Integers, booleans and
   * dict leaves are kept (see README).
   */
  function TupleOf(v: Value): (r: Value)
    ensures v.List? || v.Tuple? ==> r == Tuple(v.items)
    ensures v.Str? ==> r.Tuple? && |r.items| == |v.s| && forall i :: 0 <= i < |v.s| ==> r.items[i] == Str([v.s[i]])
    ensures v.Bytes? ==> r.Tuple? && |r.items| == |v.bytes| && forall i :: 0 <= i < |v.bytes| ==> r.items[i] == Int(v.bytes[i])
    ensures Truthy(r) <==> Truthy(v)
  {
    match v
    case List(xs) => Tuple(xs)
    case Str(s) => Tuple(seq(|s|, i requires 0 <= i < |s| => Str([s[i]])))
    case Bytes(bs) => Tuple(seq(|bs|, i requires 0 <= i < |bs| => Int(bs[i])))
    case _ => v
  }

  /** to_tuple: directories are returned as they are, file leaves as tuples. */
  function ToTuple(path: string, n: Node): Option<Node> {
    if n.Dir? then Some(n) else Some(File(TupleOf(n.value)))
  }

  lemma ToTupleKeepsDirectories()
    ensures KeepsDirectories(Compact, ToTuple)
  {
  }

  /** The entries after get_tree's walk with to_tuple. */
  function Tupled(es: Entries): Entries {
    ToTupleKeepsDirectories();
    Walked(Compact, ToTuple, Dir([], es), "")
  }

  /**
   * After get_tree a non-empty list leaf is the tuple of its elements; an
   * empty list stays a list, since `()` is falsy and `() or []` is `[]`.
   * Directories and tuple leaves stay as they are.
   */
  lemma ToTupleAt(es: Entries, t: seq<string>)
    requires |t| >= 1 && GetAt(es, t).Some?
    ensures GetAt(Tupled(es), t).Some?
    ensures var n, m := GetAt(es, t).value, GetAt(Tupled(es), t).value;
      match n
      case Dir(attrs, children) => m.Dir? && m.attrs == attrs && Keys(m.entries) == Keys(children)
      case File(List(xs)) => m == if xs == [] then n else File(Tuple(xs))
      case File(Str(s)) =>
        if s == "" then m == n
        else m.File? && m.value.Tuple? && |m.value.items| == |s| &&
             forall i :: 0 <= i < |s| ==> m.value.items[i] == Str([s[i]])
      case File(Bytes(bs)) =>
        if bs == [] then m == n
        else m.File? && m.value.Tuple? && |m.value.items| == |bs| &&
             forall i :: 0 <= i < |bs| ==> m.value.items[i] == Int(bs[i])
      case File(v) => v.Tuple? ==> m == n
  {
    ToTupleKeepsDirectories();
    WalkedAt(Compact, ToTuple, Dir([], es), "", t);
    var n := GetAt(es, t).value;
    var post := Rewrite(Compact, ToTuple, JoinFrom("", t), n);
    if n.Dir? {
      assert post == n;
    } else {
      assert post == if Truthy(n.value) then File(TupleOf(n.value)) else n;
    }
  }

  // ---------------------------------------------------------------------
  // __str__

  function CountSlashes(p: string): nat {
    if p == "" then 0 else (if p[0] == '/' then 1 else 0) + CountSlashes(p[1..])
  }

  /** os.path.basename: what follows the last '/'. */
  function Basename(p: string): string {
    p[LastSlash(p) + 1..]
  }

  function Indent(depth: nat): string {
    if depth == 0 then "" else "  " + Indent(depth - 1)
  }

  /** write(path, item): two spaces per '/' of the path, the last name, '/' after a directory. */
  function Line(call: (string, Node)): string {
    Indent(CountSlashes(call.0)) + Basename(call.0) + (if call.1.Dir? then "/" else "")
  }

  function Lines(calls: seq<(string, Node)>): (ls: seq<string>)
    ensures |ls| == |calls|
  {
    seq(|calls|, i requires 0 <= i < |calls| => Line(calls[i]))
  }

  /** '\n'.join(lines) */
  function JoinLines(ls: seq<string>): string {
    if ls == [] then ""
    else if |ls| == 1 then ls[0]
    else JoinLines(ls[..|ls| - 1]) + "\n" + ls[|ls| - 1]
  }

  /** The lines __str__ joins: one per node, in the order walk visits them. */
  function Rendered(root: Node): seq<string>
    requires root.Dir?
  {
    Lines(PreOrder(root, "", |root.entries|))
  }

  lemma {:induction false} CountSlashesAppend(a: string, b: string)
    ensures CountSlashes(a + b) == CountSlashes(a) + CountSlashes(b)
    decreases |a|
  {
    if a != "" {
      assert (a + b)[1..] == a[1..] + b;
      CountSlashesAppend(a[1..], b);
    } else {
      assert a + b == b;
    }
  }

  lemma {:induction false} NoSlashes(a: string)
    requires '/' !in a
    ensures CountSlashes(a) == 0
    decreases |a|
  {
    if a != "" {
      assert a[0] in a;
      assert forall c :: c in a[1..] ==> c in a;
      NoSlashes(a[1..]);
    }
  }

  /** The path joined from proper names is non-empty and does not end in '/'. */
  lemma JoinedNamesEnd(t: seq<string>)
    requires Names(t) && |t| >= 1
    ensures JoinFrom("", t) != "" && JoinFrom("", t)[|JoinFrom("", t)| - 1] != '/'
  {
    assert Join("", t[0]) == t[0];
    assert t[0][|t[0]| - 1] in t[0];
    if |t| > 1 {
      assert Names(t[1..]) by {
        forall i | 0 <= i < |t[1..]| ensures t[1..][i] != "" && '/' !in t[1..][i] {
          assert t[1..][i] == t[i + 1];
        }
      }
      JoinFromNames(t[0], t[1..]);
    }
  }

  /** The path of a node at names `t` has |t| - 1 separators and ends with the node's own name. */
  lemma {:induction false} JoinedNamesShape(t: seq<string>)
    requires Names(t) && |t| >= 1
    ensures CountSlashes(JoinFrom("", t)) == |t| - 1
    ensures Basename(JoinFrom("", t)) == t[|t| - 1]
    decreases |t|
  {
    var init, last := t[..|t| - 1], t[|t| - 1];
    assert '/' !in last && last != "";
    NoSlashes(last);
    assert t == init + [last];
    JoinFromAppend("", init, [last]);
    if init == [] {
      assert JoinFrom("", t) == Join("", last) == last;
      assert LastSlash(last) == -1;
      assert last[0..] == last;
    } else {
      assert Names(init) by {
        forall i | 0 <= i < |init| ensures init[i] != "" && '/' !in init[i] {
          assert init[i] == t[i];
        }
      }
      var x := JoinFrom("", init);
      JoinedNamesEnd(init);
      JoinedNamesShape(init);
      var p := x + "/" + last;
      assert JoinFrom("", t) == Join(x, last) == p;
      CountSlashesAppend(x + "/", last);
      CountSlashesAppend(x, "/");
      var k := LastSlash(p);
      assert p[|x|] == '/';
      assert k >= |x|;
      assert p[k + 1..] == last;
    }
  }

  lemma LineAt(t: seq<string>, n: Node)
    requires Names(t) && |t| >= 1
    ensures Line((JoinFrom("", t), n)) == Indent(|t| - 1) + t[|t| - 1] + (if n.Dir? then "/" else "")
  {
    JoinedNamesShape(t);
  }

  lemma LinesHold(calls: seq<(string, Node)>, call: (string, Node))
    requires call in calls
    ensures Line(call) in Lines(calls)
  {
    var i :| 0 <= i < |calls| && calls[i] == call;
    assert Lines(calls)[i] == Line(call);
  }

  /**
   * Every node at an address made of proper names shows up in __str__'s
   * lines, indented two spaces per level below the top, as its own name,
   * followed by '/' when it is a directory.
   */
  lemma RenderedNode(root: Node, t: seq<string>)
    requires root.Dir? && |t| >= 1 && Names(t) && GetAt(root.entries, t).Some?
    ensures Indent(|t| - 1) + t[|t| - 1] + (if GetAt(root.entries, t).value.Dir? then "/" else "")
            in Rendered(root)
  {
    var n := GetAt(root.entries, t).value;
    PreOrderVisits(root, "", t);
    LineAt(t, n);
    LinesHold(PreOrder(root, "", |root.entries|), (JoinFrom("", t), n));
  }

  // ---------------------------------------------------------------------
  // The classes

  /** FileTree: the compact layout. `tree` is the dict of the top-level entries. */
  class FileTree {
    var tree: Entries

    /** Insert each path in order; a trailing '/' makes an empty directory. */
    constructor (paths: seq<string>)
      requires Buildable(paths, ListLeaf, CompactDir)
      ensures tree == Build(paths, ListLeaf, CompactDir)
    {
      tree := [];
      new;
      for i := 0 to |paths|
        invariant tree == Build(paths[..i], ListLeaf, CompactDir)
      {
        var path := paths[i];
        BuildStep(paths, i, ListLeaf, CompactDir);
        LeafCases(path, ListLeaf, CompactDir);
        if path[|path| - 1] == '/' {
          path := path[..|path| - 1];
          tree := InsertAt(tree, path, CompactDir, CompactDir);
        } else {
          tree := InsertAt(tree, path, ListLeaf, CompactDir);
        }
      }
      TakeAll(paths);
    }

    /** The entries, with every list leaf turned into a tuple first. */
    method GetTree() returns (r: Entries)
      modifies this
      ensures r == tree == Tupled(old(tree))
    {
      ToTupleKeepsDirectories();
      var _ := Walk(ToTuple);
      r := tree;
    }

    /**
     * Rewrite every node in pre-order with the callback's truthy results;
     * `calls` are the (full path, node) pairs the callback receives.
     */
    method Walk(cb: Callback) returns (ghost calls: seq<(string, Node)>)
      requires KeepsDirectories(Compact, cb)
      modifies this
      ensures tree == Walked(Compact, cb, Dir([], old(tree)), "")
      ensures calls == PreOrder(Dir([], old(tree)), "", |old(tree)|)
    {
      var walked;
      walked, calls := WalkDirectory(Compact, cb, Dir([], tree), "");
      tree := walked;
    }

    /** __str__: one line per node, in walk order. */
    function ToString(): (s: string)
      reads this
    {
      JoinLines(Rendered(Dir([], tree)))
    }
  }

  /** FileTree2: the typed layout. The root is `{'contents': ..., 'type': 'dir'}`. */
  class FileTree2 {
    var contents: Entries

    constructor (paths: seq<string>)
      requires Buildable(paths, TypedLeaf, TypedDir)
      ensures contents == Build(paths, TypedLeaf, TypedDir)
    {
      contents := [];
      new;
      for i := 0 to |paths|
        invariant contents == Build(paths[..i], TypedLeaf, TypedDir)
      {
        var path := paths[i];
        BuildStep(paths, i, TypedLeaf, TypedDir);
        LeafCases(path, TypedLeaf, TypedDir);
        if path[|path| - 1] == '/' {
          path := path[..|path| - 1];
          contents := InsertAt(contents, path, TypedDir, TypedDir);
        } else {
          contents := InsertAt(contents, path, TypedLeaf, TypedDir);
        }
      }
      TakeAll(paths);
    }

    /** get_tree: the root directory node, the source's `self.tree`. */
    function GetTree(): Node
      reads this
    {
      Dir([TypeTag("dir")], contents)
    }

    method Walk(cb: Callback) returns (ghost calls: seq<(string, Node)>)
      requires KeepsDirectories(Typed, cb)
      modifies this
      ensures contents == Walked(Typed, cb, old(GetTree()), "")
      ensures calls == PreOrder(old(GetTree()), "", |old(contents)|)
    {
      var walked;
      walked, calls := WalkDirectory(Typed, cb, GetTree(), "");
      contents := walked;
    }

    function ToString(): (s: string)
      reads this
    {
      JoinLines(Rendered(GetTree()))
    }
  }
}

/**
 * POSIX path strings as the parser and the file trees use them: `os.path.join`,
 * the `/`-splitting done by the trees' get_parent, `os.path.dirname` on the
 * paths the model accepts, and the directory totals that the parser sums over
 * every proper ancestor directory of a file.
 */
module Paths {

  /** posixpath.join(a, b): an absolute `b` wins, no separator is doubled. */
  function PosixJoin<T(==)>(a: seq<T>, b: seq<T>, sep: T): seq<T> {
    if |b| > 0 && b[0] == sep then b
    else if a == [] || a[|a| - 1] == sep then a + b
    else a + [sep] + b
  }

  /** posixpath.join(*parts) with at least one part. */
  function JoinAll<T(==)>(parts: seq<seq<T>>, sep: T): seq<T>
    requires |parts| >= 1
  {
    if |parts| == 1 then parts[0]
    else PosixJoin(JoinAll(parts[..|parts| - 1], sep), parts[|parts| - 1], sep)
  }

  function Join(a: string, b: string): string {
    PosixJoin(a, b, '/')
  }

  /** The parts with one `sep` between neighbours, and no other `sep` added or removed. */
  function SepJoin<T>(parts: seq<seq<T>>, sep: T): (r: seq<T>)
    requires |parts| >= 1
    ensures parts[|parts| - 1] != [] ==> r != [] && r[|r| - 1] in parts[|parts| - 1]
  {
    if |parts| == 1 then parts[0]
    else
      var last := parts[|parts| - 1];
      assert last != [] ==> last[|last| - 1] in last;
      SepJoin(parts[..|parts| - 1], sep) + [sep] + last
  }

  /**
   * posixpath.join of parts that are non-empty and hold no separator only
   * puts one separator between neighbours: no part is absolute and none ends
   * in the separator.
   */
  lemma {:induction false} JoinAllSeparates<T>(parts: seq<seq<T>>, sep: T)
    requires |parts| >= 1
    requires forall i :: 0 <= i < |parts| ==> parts[i] != [] && sep !in parts[i]
    ensures JoinAll(parts, sep) == SepJoin(parts, sep)
    decreases |parts|
  {
    if |parts| > 1 {
      var init, last := parts[..|parts| - 1], parts[|parts| - 1];
      assert forall i :: 0 <= i < |init| ==> init[i] == parts[i];
      JoinAllSeparates(init, sep);
      assert last[0] in last;
    }
  }

  /** The full path the trees' walk builds for the names `s` below `parent`. */
  function JoinFrom(parent: string, s: seq<string>): string
    decreases |s|
  {
    if s == [] then parent else JoinFrom(Join(parent, s[0]), s[1..])
  }

  /** Position of the first '/', or -1. */
  function FirstSlash(p: string): (i: int)
    ensures -1 <= i < |p|
    ensures 0 <= i ==> p[i] == '/'
    ensures forall j :: 0 <= j < |p| && (i < 0 || j < i) ==> p[j] != '/'
  {
    if p == "" then -1
    else if p[0] == '/' then 0
    else
      var j := FirstSlash(p[1..]);
      if j < 0 then -1 else j + 1
  }

  /** Position of the last '/', or -1. */
  function LastSlash(p: string): (i: int)
    ensures -1 <= i < |p|
    ensures 0 <= i ==> p[i] == '/'
    ensures forall j :: i < j < |p| ==> p[j] != '/'
  {
    if p == "" then -1
    else if p[|p| - 1] == '/' then |p| - 1
    else LastSlash(p[..|p| - 1])
  }

  /** The names get_parent descends through: `p` split at every '/'. */
  function Segments(p: string): (s: seq<string>)
    ensures |s| >= 1
    decreases |p|
  {
    var k := FirstSlash(p);
    if k < 0 then [p] else [p[..k]] + Segments(p[k + 1..])
  }

  predicate NonEmptySegments(p: string) {
    forall i :: 0 <= i < |Segments(p)| ==> Segments(p)[i] != ""
  }

  /** A trailing '/' marks an explicitly created directory. */
  function StripSlash(p: string): string {
    if p != "" && p[|p| - 1] == '/' then p[..|p| - 1] else p
  }

  /**
   * The paths the model accepts: non-empty, and every name non-empty once a
   * single trailing '/' is dropped (no leading '/', no '//').
   */
  predicate AcceptedPath(p: string) {
    p != "" && NonEmptySegments(StripSlash(p))
  }

  /** os.path.dirname on accepted paths: everything before the last '/'. */
  function Dirname(p: string): (d: string)
    ensures p != "" ==> |d| < |p|
  {
    var i := LastSlash(p);
    if i < 0 then "" else p[..i]
  }

  /** `p` lies strictly below directory `d`: `d + "/"` is a proper prefix of `p`. */
  predicate Below(d: string, p: string) {
    0 < |d| < |p| && p[..|d|] == d && p[|d|] == '/'
  }

  // ---------------------------------------------------------------------
  // Joining the names that Segments produces gives the path back

  predicate Names(s: seq<string>) {
    forall i :: 0 <= i < |s| ==> s[i] != "" && '/' !in s[i]
  }

  /** The segments after the first '/' are the segments of the rest of the path. */
  lemma SegmentsTail(p: string)
    requires FirstSlash(p) >= 0
    ensures NonEmptySegments(p) ==> p[..FirstSlash(p)] != "" && NonEmptySegments(p[FirstSlash(p) + 1..])
  {
    var k := FirstSlash(p);
    var sp := Segments(p);
    var sr := Segments(p[k + 1..]);
    assert sp == [p[..k]] + sr;
    if NonEmptySegments(p) {
      assert sp[0] == p[..k];
      forall i | 0 <= i < |sr| ensures sr[i] != "" {
        assert sr[i] == sp[i + 1];
      }
    }
  }

  lemma {:induction false} SegmentsAreNames(p: string)
    requires NonEmptySegments(p)
    ensures Names(Segments(p))
    decreases |p|
  {
    var k := FirstSlash(p);
    if k >= 0 {
      SegmentsTail(p);
      assert Segments(p) == [p[..k]] + Segments(p[k + 1..]);
      SegmentsAreNames(p[k + 1..]);
      assert '/' !in p[..k];
    } else {
      assert Segments(p) == [p];
      assert Segments(p)[0] != "";
      assert '/' !in p;
    }
  }

  lemma {:induction false} JoinFromAppend(parent: string, s1: seq<string>, s2: seq<string>)
    ensures JoinFrom(parent, s1 + s2) == JoinFrom(JoinFrom(parent, s1), s2)
    decreases |s1|
  {
    if s1 != [] {
      assert (s1 + s2)[1..] == s1[1..] + s2;
      JoinFromAppend(Join(parent, s1[0]), s1[1..], s2);
    } else {
      assert s1 + s2 == s2;
    }
  }

  /** Below a non-empty parent that does not end in '/', names are joined with one '/'. */
  lemma {:induction false} JoinFromNames(x: string, s: seq<string>)
    requires x != "" && x[|x| - 1] != '/'
    requires Names(s) && s != []
    ensures JoinFrom(x, s) == x + "/" + JoinFrom(s[0], s[1..])
    ensures JoinFrom(x, s)[|JoinFrom(x, s)| - 1] != '/'
    decreases |s|
  {
    var y := Join(x, s[0]);
    assert y == x + "/" + s[0];
    if |s| == 1 {
      assert s[0][|s[0]| - 1] in s[0];
    } else {
      assert Names(s[1..]) by {
        forall i | 0 <= i < |s[1..]| ensures s[1..][i] != "" && '/' !in s[1..][i] {
          assert s[1..][i] == s[i + 1];
        }
      }
      assert s[0][|s[0]| - 1] in s[0];
      JoinFromNames(y, s[1..]);
      JoinFromNames(s[0], s[1..]);
    }
  }

  lemma JoinHeadRest(head: string, sr: seq<string>, rest: string)
    requires head != "" && '/' !in head && Names(sr) && sr != [] && JoinFrom("", sr) == rest
    ensures JoinFrom("", [head] + sr) == head + "/" + rest
  {
    assert Join("", head) == head;
    assert ([head] + sr)[1..] == sr;
    assert head[|head| - 1] in head;
    JoinFromNames(head, sr);
    assert Join("", sr[0]) == sr[0];
  }

  /** Joining the segments of a path whose names are non-empty gives the path. */
  lemma {:induction false} JoinSegments(p: string)
    requires NonEmptySegments(p)
    ensures JoinFrom("", Segments(p)) == p
    decreases |p|
  {
    var k := FirstSlash(p);
    if k < 0 {
      assert Segments(p) == [p];
      assert Join("", p) == p;
    } else {
      var head, rest := p[..k], p[k + 1..];
      assert Segments(p) == [head] + Segments(rest) && p == head + "/" + rest;
      SegmentsTail(p);
      JoinSegments(rest);
      SegmentsAreNames(rest);
      assert '/' !in head by {
        forall j | 0 <= j < k ensures head[j] != '/' {
          assert head[j] == p[j];
        }
      }
      JoinHeadRest(head, Segments(rest), rest);
    }
  }

  /** `os.path.join(*names)` is the walk's join of the same names from "". */
  lemma {:induction false} JoinAllFrom(s: seq<string>)
    requires |s| >= 1
    ensures JoinAll(s, '/') == JoinFrom("", s)
    decreases |s|
  {
    if |s| == 1 {
      assert Join("", s[0]) == s[0];
      assert s[1..] == [];
    } else {
      var init := s[..|s| - 1];
      JoinAllFrom(init);
      assert s == init + [s[|s| - 1]];
      JoinFromAppend("", init, [s[|s| - 1]]);
    }
  }

  /** `os.path.join(*p.split('/'))` gives back every path whose names are non-empty. */
  lemma JoinAllSegments(p: string)
    requires NonEmptySegments(p)
    ensures JoinAll(Segments(p), '/') == p
  {
    JoinSegments(p);
    JoinAllFrom(Segments(p));
  }

  /** Every proper prefix of a name list joins to a directory the whole lies strictly below. */
  lemma {:induction false} JoinPrefixBelow(s: seq<string>, k: nat)
    requires Names(s) && 1 <= k < |s|
    ensures Below(JoinFrom("", s[..k]), JoinFrom("", s))
  {
    var d := JoinFrom("", s[..k]);
    assert s == s[..k] + s[k..];
    JoinFromAppend("", s[..k], s[k..]);
    assert Names(s[..k]) by {
      forall i | 0 <= i < k ensures s[..k][i] != "" && '/' !in s[..k][i] {
        assert s[..k][i] == s[i];
      }
    }
    assert Names(s[k..]) by {
      forall i | 0 <= i < |s[k..]| ensures s[k..][i] != "" && '/' !in s[k..][i] {
        assert s[k..][i] == s[k + i];
      }
    }
    assert s[..k][1..] == s[1..k];
    assert Join("", s[0]) == s[0];
    if k == 1 {
      assert d == s[0];
      assert s[0][|s[0]| - 1] in s[0];
    } else {
      JoinFromNames(s[0], s[1..k]);
      assert d == JoinFrom(s[0], s[1..k]);
    }
    JoinFromNames(d, s[k..]);
  }

  // ---------------------------------------------------------------------
  // The dirname chain reaches exactly the directories a path lies below

  lemma BelowDirname(d: string, p: string)
    ensures Below(d, p) <==> Dirname(p) != "" && (d == Dirname(p) || Below(d, Dirname(p)))
  {
    var r := LastSlash(p);
    if Below(d, p) {
      var i := |d|;
      assert p[i] == '/';
      assert i <= r;
      if i < r {
        assert Dirname(p) == p[..r];
        assert p[..r][..i] == p[..i];
      }
    }
    if Dirname(p) != "" && Below(d, Dirname(p)) {
      assert p[..r][..|d|] == p[..|d|];
    }
  }

  function Total(m: map<string, int>, d: string): int {
    if d in m then m[d] else 0
  }

  /**
   * The parser's inner while loop: add `length` to the total of `dir` and of
   * each of its dirnames in turn, until the dirname is empty.
   */
  function AddToAncestors(m: map<string, int>, dir: string, length: int): map<string, int>
    decreases |dir|
  {
    if dir == "" then m
    else AddToAncestors(m[dir := Total(m, dir) + length], Dirname(dir), length)
  }

  lemma {:induction false} AddToAncestorsBelow(m: map<string, int>, p: string, length: int)
    ensures forall d :: d in AddToAncestors(m, Dirname(p), length) <==> d in m || Below(d, p)
    ensures forall d :: Total(AddToAncestors(m, Dirname(p), length), d)
                        == Total(m, d) + if Below(d, p) then length else 0
    decreases |p|
  {
    var x := Dirname(p);
    forall d ensures Below(d, p) <==> x != "" && (d == x || Below(d, x)) {
      BelowDirname(d, p);
    }
    if x != "" {
      var m1 := m[x := Total(m, x) + length];
      AddToAncestorsBelow(m1, x, length);
    }
  }

  /** The totals the parser's dirs dictionary holds after every (path, length). */
  function DirTotals(items: seq<(string, int)>): map<string, int> {
    if items == [] then map[]
    else
      var last := items[|items| - 1];
      AddToAncestors(DirTotals(items[..|items| - 1]), Dirname(last.0), last.1)
  }

  /** The reference definition: the sum of the lengths of the items strictly below `d`. */
  function SumBelow(items: seq<(string, int)>, d: string): int {
    if items == [] then 0
    else
      var last := items[|items| - 1];
      SumBelow(items[..|items| - 1], d) + if Below(d, last.0) then last.1 else 0
  }

  /**
   * A directory has a total exactly when some item lies below it, and the
   * total is the sum over all such items, duplicates included.
   */
  lemma {:induction false} DirTotalsAreSums(items: seq<(string, int)>)
    ensures forall d :: d in DirTotals(items) <==> exists i :: 0 <= i < |items| && Below(d, items[i].0)
    ensures forall d :: Total(DirTotals(items), d) == SumBelow(items, d)
  {
    if items != [] {
      var init := items[..|items| - 1];
      var last := items[|items| - 1];
      DirTotalsAreSums(init);
      AddToAncestorsBelow(DirTotals(init), last.0, last.1);
      forall d ensures d in DirTotals(items) <==> exists i :: 0 <= i < |items| && Below(d, items[i].0) {
        if d in DirTotals(items) && !Below(d, last.0) {
          var i :| 0 <= i < |init| && Below(d, init[i].0);
          assert items[i] == init[i];
        }
        if exists i :: 0 <= i < |items| && Below(d, items[i].0) {
          var i :| 0 <= i < |items| && Below(d, items[i].0);
          if i < |init| {
            assert init[i] == items[i];
          }
        }
      }
    }
  }

  // ---------------------------------------------------------------------
  // posixpath.dirname itself, and where the `while dirname:` loop ends

  /** `s` holds nothing but '/'. */
  predicate AllSlashes(s: string) {
    forall i :: 0 <= i < |s| ==> s[i] == '/'
  }

  /** `s.rstrip('/')`: `s` without its trailing '/'s. */
  function RStripSlash(s: string): (r: string)
    ensures |r| <= |s| && r == s[..|r|]
    ensures r == "" || r[|r| - 1] != '/'
    ensures forall j :: |r| <= j < |s| ==> s[j] == '/'
  {
    if s != "" && s[|s| - 1] == '/' then
      var r := RStripSlash(s[..|s| - 1]);
      assert s[..|s| - 1][..|r|] == s[..|r|];
      r
    else s
  }

  /**
   * posixpath.dirname as Python writes it: the path up to and including its
   * last '/', with the trailing '/'s stripped unless nothing else is left.
   */
  function PyDirname(p: string): string {
    var head := p[..LastSlash(p) + 1];
    if head != "" && !AllSlashes(head) then RStripSlash(head) else head
  }

  /** The `while dirname:` loop, stepping with posixpath.dirname, reaches "" within `fuel` steps. */
  predicate LoopEnds(dir: string, fuel: nat)
    decreases fuel
  {
    dir == "" || (fuel > 0 && LoopEnds(PyDirname(dir), fuel - 1))
  }

  /** The dirname of a path that starts with '/' starts with '/' too, so it is never "". */
  lemma LeadingSlashStays(p: string)
    requires p != "" && p[0] == '/'
    ensures PyDirname(p) != "" && PyDirname(p)[0] == '/'
  {
    var i := LastSlash(p);
    assert 0 <= i;
    var head := p[..i + 1];
    assert head[0] == '/';
    if !AllSlashes(head) {
      var r := RStripSlash(head);
      assert r != "";
    }
  }

  /**
   * As written, lines 246-250 never leave the loop for a path that starts
   * with '/': the dirname chain reaches "/", whose dirname is "/" again. A
   * torrent name in front does not help, since joining with an absolute path
   * keeps only that path.
   */
  lemma {:induction false} LeadingSlashLoops(name: string, p: string, fuel: nat)
    requires p != "" && p[0] == '/'
    ensures Join(name, p) == p
    ensures PyDirname("/") == "/"
    ensures !LoopEnds(PyDirname(p), fuel)
    decreases fuel
  {
    LeadingSlashStays(p);
    LeadingSlashStays("/");
    assert "/"[..1] == "/";
    if fuel > 0 {
      LeadingSlashLoops(name, PyDirname(p), fuel - 1);
    }
  }

  /** No leading '/' and no "//": the shape of an accepted path and of each of its dirnames. */
  predicate Clean(q: string) {
    (q == "" || q[0] != '/') && forall j :: 0 < j < |q| && q[j] == '/' ==> q[j - 1] != '/'
  }

  /** On a clean path, the model's Dirname is posixpath.dirname, and the result is clean again. */
  lemma DirnameAgrees(q: string)
    requires Clean(q)
    ensures PyDirname(q) == Dirname(q)
    ensures Clean(Dirname(q))
  {
    var i := LastSlash(q);
    if 0 <= i {
      var head := q[..i + 1];
      assert head[0] == q[0] != '/';
      assert !AllSlashes(head);
      assert head[..i] == q[..i];
      assert RStripSlash(head) == RStripSlash(q[..i]);
      assert q[..i] == "" || q[i - 1] != '/';
    }
  }

  /** On a clean path the loop ends, within as many steps as the path is long. */
  lemma {:induction false} CleanLoopEnds(q: string, fuel: nat)
    requires Clean(q) && |q| <= fuel
    ensures LoopEnds(q, fuel)
    decreases fuel
  {
    if q != "" {
      DirnameAgrees(q);
      CleanLoopEnds(Dirname(q), fuel - 1);
    }
  }

  /** A string whose names between '/'s are all non-empty has no '/' at either end and no "//". */
  lemma {:induction false} SegmentsClean(s: string)
    requires NonEmptySegments(s)
    ensures s != "" && s[0] != '/' && s[|s| - 1] != '/' && Clean(s)
    decreases |s|
  {
    assert Segments(s)[0] != "";
    var k := FirstSlash(s);
    if 0 <= k {
      var rest := s[k + 1..];
      assert Segments(s) == [s[..k]] + Segments(rest);
      forall i | 0 <= i < |Segments(rest)|
        ensures Segments(rest)[i] != ""
      {
        assert Segments(rest)[i] == Segments(s)[i + 1];
      }
      SegmentsClean(rest);
      forall j | 0 < j < |s| && s[j] == '/'
        ensures s[j - 1] != '/'
      {
        if k + 1 < j {
          assert rest[j - k - 1] == '/';
        }
      }
    }
  }

  /** An accepted path has no leading '/' and no "//". */
  lemma AcceptedClean(p: string)
    requires AcceptedPath(p)
    ensures Clean(p)
  {
    var s := StripSlash(p);
    SegmentsClean(s);
    if s != p {
      assert p[..|s|] == s;
      forall j | 0 < j < |p| && p[j] == '/'
        ensures p[j - 1] != '/'
      {
        assert p[j - 1] == s[j - 1];
      }
    }
  }

  /**
   * The model's loop is Python's: on an accepted path posixpath.dirname is
   * the model's Dirname, and the `while dirname:` loop ends.
   */
  lemma AcceptedLoopEnds(p: string)
    requires AcceptedPath(p)
    ensures PyDirname(p) == Dirname(p)
    ensures LoopEnds(Dirname(p), |p|)
  {
    AcceptedClean(p);
    DirnameAgrees(p);
    CleanLoopEnds(Dirname(p), |p|);
  }
}

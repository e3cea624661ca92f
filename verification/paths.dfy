/**
 * Path strings and path-addressed access to a node value. `ParsePath`
 * follows the string handling of `FilesystemTree::pathToPointer`; `AtPath`
 * is its child-by-name walk, and `ReplaceAt` rebuilds a tree with the node at
 * a path exchanged, which is how every mutation of the tree is expressed.
 */
module Paths {
  import opened Wrappers
  import opened Strings
  import opened Seqs
  import opened FsNode

  /** Name of the root node; the one name allowed a character that is not a letter or digit. */
  const ROOT_NAME: string := "C:"

  /** Separator between path segments; it is not a letter or digit. */
  const SEPARATING_CHAR: char := '/'

  predicate EndsWithSeparator(s: string)
  {
    |s| > 0 && s[|s| - 1] == SEPARATING_CHAR
  }

  /** A segment a path can name: non-empty and free of the separator. */
  predicate ValidSegment(s: string)
  {
    s != [] && SEPARATING_CHAR !in s
  }

  /**
   * The text `pathToPointer` walks after the root segment: a separator is
   * appended unless the path already ends with one, and everything up to and
   * including the first separator is dropped. Whatever precedes that first
   * separator is ignored, so `"C:x/a"` walks like `"C:/a"`.
   */
  function Remainder(path: string): (rest: string)
    ensures rest == [] || EndsWithSeparator(rest)
  {
    var p := Terminated(path);
    var k := IndexOf(p, SEPARATING_CHAR);
    p[k + 1..]
  }

  /** The path with a separator appended unless it already ends with one. */
  function Terminated(path: string): (p: string)
    ensures EndsWithSeparator(p)
  {
    if EndsWithSeparator(path) then path else path + [SEPARATING_CHAR]
  }

  /**
   * The segments of the walk loop: while more than one character remains,
   * the text before the next separator is looked up. A remainder of one
   * character (a lone trailing separator) ends the walk.
   */
  function Segments(rest: string): (segs: seq<string>)
    requires rest == [] || EndsWithSeparator(rest)
    ensures forall i :: 0 <= i < |segs| ==> SEPARATING_CHAR !in segs[i]
    decreases |rest|
  {
    if |rest| <= 1 then []
    else
      var j := IndexOf(rest, SEPARATING_CHAR);
      [rest[..j]] + Segments(rest[j + 1..])
  }

  /**
   * `pathToPointer`'s parse: the root name alone is the root, a path not
   * beginning with the root name names nothing, and any other path is split
   * into the segments to walk from the root.
   */
  function ParsePath(path: string): (r: Option<seq<string>>)
    ensures r.Some? <==> |path| >= |ROOT_NAME| && path[..|ROOT_NAME|] == ROOT_NAME
    ensures r.Some? ==> forall i :: 0 <= i < |r.value| ==> SEPARATING_CHAR !in r.value[i]
  {
    if path == ROOT_NAME then Some([])
    else if |path| < |ROOT_NAME| || path[..|ROOT_NAME|] != ROOT_NAME then None
    else Some(Segments(Remainder(path)))
  }

  /** The canonical path of a segment list: the root name, then a separator before each segment. */
  function JoinPath(segs: seq<string>): (path: string)
    decreases |segs|
  {
    if segs == [] then ROOT_NAME
    else JoinPath(segs[..|segs| - 1]) + [SEPARATING_CHAR] + segs[|segs| - 1]
  }

  /** A remainder that a path not ending in a separator leaves: empty, or text closed by exactly one separator. */
  predicate WellEnded(rest: string)
  {
    rest == [] || (|rest| >= 2 && EndsWithSeparator(rest) && rest[|rest| - 2] != SEPARATING_CHAR)
  }

  /** One more segment on the text adds exactly that segment to the walk. */
  lemma {:induction false} SegmentsAppend(rest: string, name: string)
    requires WellEnded(rest) && ValidSegment(name)
    ensures Segments(rest + name + [SEPARATING_CHAR]) == Segments(rest) + [name]
    decreases |rest|
  {
    var t := name + [SEPARATING_CHAR];
    ConcatAssoc(rest, name, [SEPARATING_CHAR]);
    if rest == [] {
      SegmentsSingle(name);
      assert rest + t == t;
    } else {
      var j := IndexOf(rest, SEPARATING_CHAR);
      var tail := rest[j + 1..];
      SegmentsFirst(rest, t);
      SegmentsAppend(tail, name);
      ConcatAssoc(tail, name, [SEPARATING_CHAR]);
      ConcatAssoc([rest[..j]], Segments(tail), [name]);
    }
  }

  /** A single segment closed by a separator is walked as that segment. */
  lemma SegmentsSingle(name: string)
    requires ValidSegment(name)
    ensures Segments(name + [SEPARATING_CHAR]) == [name]
  {
    var t := name + [SEPARATING_CHAR];
    IndexOfSkip(name, [SEPARATING_CHAR], SEPARATING_CHAR);
    SliceConcat(name, [SEPARATING_CHAR], |name|);
    assert t[|name| + 1..] == [];
    SegmentsSplit(t, |name|);
  }

  /** The first segment of a well-ended text stays first when more text follows it. */
  lemma SegmentsFirst(rest: string, t: string)
    requires WellEnded(rest) && rest != [] && EndsWithSeparator(t)
    ensures var j := IndexOf(rest, SEPARATING_CHAR);
      && j + 1 <= |rest| && WellEnded(rest[j + 1..])
      && Segments(rest + t) == [rest[..j]] + Segments(rest[j + 1..] + t)
      && Segments(rest) == [rest[..j]] + Segments(rest[j + 1..])
  {
    var j := SegmentsPeel(rest, t);
  }

  /** One turn of the walk loop. */
  lemma SegmentsSplit(s: string, j: nat)
    requires EndsWithSeparator(s) && |s| > 1 && j == IndexOf(s, SEPARATING_CHAR)
    requires j < |s|
    ensures Segments(s) == [s[..j]] + Segments(s[j + 1..])
  {
  }

  /** Remainder of a path that does not end in a separator, extended by one segment. */
  lemma RemainderAppend(path: string, name: string)
    requires !EndsWithSeparator(path) && ValidSegment(name)
    ensures WellEnded(Remainder(path))
    ensures Remainder(path + [SEPARATING_CHAR] + name) == Remainder(path) + name + [SEPARATING_CHAR]
  {
    RemainderWellEnded(path);
    var p := path + [SEPARATING_CHAR];
    var t := name + [SEPARATING_CHAR];
    var k := RemainderUnterminated(path);
    TerminatedAppend(path, name);
    IndexOfPrefix(p, t, SEPARATING_CHAR);
    SliceConcat(p, t, k + 1);
    ConcatAssoc(p[k + 1..], name, [SEPARATING_CHAR]);
  }

  /** A path not ending in a separator gets one, and its first separator is found before the end. */
  lemma RemainderUnterminated(path: string) returns (k: nat)
    requires !EndsWithSeparator(path)
    ensures var p := path + [SEPARATING_CHAR];
      && Terminated(path) == p && k == IndexOf(p, SEPARATING_CHAR) && k < |p|
      && Remainder(path) == p[k + 1..]
  {
    var p := path + [SEPARATING_CHAR];
    IndexOfLast(p, SEPARATING_CHAR);
    k := IndexOf(p, SEPARATING_CHAR);
  }

  /** A path extended by a separator and a segment is closed by a separator after that segment. */
  lemma TerminatedAppend(path: string, name: string)
    requires ValidSegment(name)
    ensures Terminated(path + [SEPARATING_CHAR] + name) == (path + [SEPARATING_CHAR]) + (name + [SEPARATING_CHAR])
  {
    var q := path + [SEPARATING_CHAR] + name;
    assert !EndsWithSeparator(q) by {
      assert q[|q| - 1] == name[|name| - 1];
    }
    ConcatAssoc(path + [SEPARATING_CHAR], name, [SEPARATING_CHAR]);
  }

  /** The remainder of a path not ending in a separator is closed by exactly one separator. */
  lemma RemainderWellEnded(path: string)
    requires !EndsWithSeparator(path)
    ensures WellEnded(Remainder(path))
  {
    var p := path + [SEPARATING_CHAR];
    assert Terminated(path) == p;
    IndexOfLast(p, SEPARATING_CHAR);
    var k := IndexOf(p, SEPARATING_CHAR);
    if k + 1 < |p| {
      assert k < |path| - 1;
      assert p[k + 1..][|p[k + 1..]| - 2] == path[|path| - 1];
    }
  }

  /** Any path that starts with the root name parses to the segments of its remainder. */
  lemma ParsePathGeneral(path: string)
    requires |path| >= |ROOT_NAME| && path[..|ROOT_NAME|] == ROOT_NAME
    ensures ParsePath(path) == Some(Segments(Remainder(path)))
  {
    if path == ROOT_NAME {
      assert path + [SEPARATING_CHAR] == "C:/";
      assert IndexOf("C:/", SEPARATING_CHAR) == 2;
    }
  }

  /**
   * Appending a separator and a segment to a resolvable path that does not end
   * in a separator adds exactly that segment to the walk.
   */
  lemma ParsePathAppend(path: string, name: string)
    requires ParsePath(path).Some? && !EndsWithSeparator(path) && ValidSegment(name)
    ensures ParsePath(path + [SEPARATING_CHAR] + name) == Some(ParsePath(path).value + [name])
  {
    var q := path + [SEPARATING_CHAR] + name;
    ConcatAssoc(path, [SEPARATING_CHAR], name);
    SliceConcat(path, [SEPARATING_CHAR] + name, |ROOT_NAME|);
    ParsePathGeneral(path);
    ParsePathGeneral(q);
    RemainderAppend(path, name);
    SegmentsAppend(Remainder(path), name);
  }

  /** Segments a path can name, every one of them. */
  predicate ValidSegments(segs: seq<string>)
  {
    forall i :: 0 <= i < |segs| ==> ValidSegment(segs[i])
  }

  /** A non-empty list of valid segments is valid segments followed by a valid last one. */
  lemma ValidSegmentsSplit(segs: seq<string>)
    requires ValidSegments(segs) && segs != []
    ensures var init := segs[..|segs| - 1];
      && ValidSegments(init) && ValidSegment(segs[|segs| - 1]) && init + [segs[|segs| - 1]] == segs
      && JoinPath(segs) == JoinPath(init) + [SEPARATING_CHAR] + segs[|segs| - 1]
  {
    var init := segs[..|segs| - 1];
    assert forall i :: 0 <= i < |init| ==> init[i] == segs[i];
  }

  /** The canonical path of valid segments never ends in a separator. */
  lemma {:induction false} JoinPathEnd(segs: seq<string>)
    requires ValidSegments(segs)
    ensures !EndsWithSeparator(JoinPath(segs))
    ensures |JoinPath(segs)| >= |ROOT_NAME| && JoinPath(segs)[..|ROOT_NAME|] == ROOT_NAME
    decreases |segs|
  {
    if segs != [] {
      var last := segs[|segs| - 1];
      var init := segs[..|segs| - 1];
      ValidSegmentsSplit(segs);
      JoinPathEnd(init);
      var p := JoinPath(init);
      ConcatAssoc(p, [SEPARATING_CHAR], last);
      SliceConcat(p, [SEPARATING_CHAR] + last, |ROOT_NAME|);
      assert JoinPath(segs)[|JoinPath(segs)| - 1] == last[|last| - 1];
    }
  }

  /** Round trip: the canonical path of valid segments parses back to those segments. */
  lemma {:induction false} ParseJoin(segs: seq<string>)
    requires ValidSegments(segs)
    ensures ParsePath(JoinPath(segs)) == Some(segs)
    decreases |segs|
  {
    if segs != [] {
      var init := segs[..|segs| - 1];
      ValidSegmentsSplit(segs);
      ParseJoin(init);
      JoinPathEnd(init);
      ParsePathAppend(JoinPath(init), segs[|segs| - 1]);
    }
  }

  /** A trailing separator is ignored. */
  lemma ParsePathTrailing(path: string)
    requires ParsePath(path).Some? && !EndsWithSeparator(path)
    ensures ParsePath(path + [SEPARATING_CHAR]) == ParsePath(path)
  {
    var q := path + [SEPARATING_CHAR];
    assert Terminated(q) == Terminated(path) by {
      assert q[|q| - 1] == SEPARATING_CHAR;
    }
    SliceConcat(path, [SEPARATING_CHAR], |ROOT_NAME|);
    ParsePathGeneral(path);
    ParsePathGeneral(q);
  }

  /** A path without a separator walks nothing past the root. */
  lemma RemainderNoSeparator(path: string)
    requires SEPARATING_CHAR !in path
    ensures Remainder(path) == []
  {
    var p := path + [SEPARATING_CHAR];
    assert !EndsWithSeparator(path);
    assert Terminated(path) == p;
    IndexOfSkip(path, [SEPARATING_CHAR], SEPARATING_CHAR);
    assert p[|path| + 1..] == [];
  }

  /**
   * How many separators can still be appended to the path before the walk
   * changes: a path ending in a name can take two (`P`, `P/` and `P//` walk
   * alike), a path whose remainder ends in a single separator one more, and
   * any other none.
   */
  function Slack(path: string): (k: nat)
    ensures k <= 2
  {
    if !EndsWithSeparator(path) then 2 else if WellEnded(Remainder(path)) then 1 else 0
  }

  /** Past a separator already at the end, more text closed by a separator is walked as it stands. */
  lemma RemainderConcat(path: string, t: string)
    requires EndsWithSeparator(path) && EndsWithSeparator(t)
    ensures Remainder(path + t) == Remainder(path) + t
  {
    var k := IndexOf(path, SEPARATING_CHAR);
    IndexOfLast(path, SEPARATING_CHAR);
    IndexOfPrefix(path, t, SEPARATING_CHAR);
    assert EndsWithSeparator(path + t) by {
      assert (path + t)[|path + t| - 1] == t[|t| - 1];
    }
    SliceConcat(path, t, k + 1);
  }

  /** A separator-closed text that is not empty loses its first segment to one turn of the walk. */
  lemma SegmentsPeel(r: string, s: string) returns (j: nat)
    requires EndsWithSeparator(r) && |r| >= 2 && EndsWithSeparator(s)
    ensures j < |r| && j == IndexOf(r, SEPARATING_CHAR)
    ensures var tail := r[j + 1..];
      && (tail == [] || EndsWithSeparator(tail))
      && (WellEnded(tail) <==> WellEnded(r))
      && Segments(r + s) == [r[..j]] + Segments(tail + s)
      && Segments(r) == [r[..j]] + Segments(tail)
  {
    j := IndexOf(r, SEPARATING_CHAR);
    IndexOfLast(r, SEPARATING_CHAR);
    IndexOfPrefix(r, s, SEPARATING_CHAR);
    var tail := r[j + 1..];
    if |tail| >= 1 {
      assert tail[|tail| - 1] == r[|r| - 1];
    }
    if |tail| >= 2 {
      assert tail[|tail| - 2] == r[|r| - 2];
    } else if |tail| == 1 {
      assert r[|r| - 2] == SEPARATING_CHAR;
    } else {
      assert r[|r| - 2] != SEPARATING_CHAR;
    }
    var rs := r + s;
    assert EndsWithSeparator(rs) by {
      assert rs[|rs| - 1] == s[|s| - 1];
    }
    SliceConcat(r, s, j);
    SliceConcat(r, s, j + 1);
    SegmentsSplit(rs, j);
    SegmentsSplit(r, j);
  }

  /**
   * Walking two separator-closed texts one after the other: the segments of
   * the first, one empty segment if the first ends in a doubled separator,
   * then the segments of the second.
   */
  lemma {:induction false} SegmentsConcat(r: string, s: string)
    requires r == [] || EndsWithSeparator(r)
    requires EndsWithSeparator(s)
    ensures Segments(r + s) == Segments(r) + (if WellEnded(r) then [] else [""]) + Segments(s)
    decreases |r|
  {
    if r == [] {
      assert r + s == s;
    } else if |r| == 1 {
      var rs := r + s;
      assert rs[0] == SEPARATING_CHAR;
      assert rs[1..] == s;
      SegmentsSplit(rs, 0);
    } else {
      var j := SegmentsPeel(r, s);
      var tail := r[j + 1..];
      SegmentsConcat(tail, s);
      var e: seq<string> := if WellEnded(r) then [] else [""];
      ConcatAssoc([r[..j]], Segments(tail), e);
      ConcatAssoc([r[..j]], Segments(tail) + e, Segments(s));
    }
  }

  /** The walk of a lone name between two separators: an empty segment, then the name. */
  lemma SegmentsSlashName(name: string)
    requires ValidSegment(name)
    ensures Segments([SEPARATING_CHAR] + name + [SEPARATING_CHAR]) == ["", name]
  {
    var s := [SEPARATING_CHAR] + name + [SEPARATING_CHAR];
    assert s[0] == SEPARATING_CHAR;
    assert s[1..] == name + [SEPARATING_CHAR];
    SegmentsSplit(s, 0);
    SegmentsSingle(name);
  }

  /** A path that parses keeps parsing when text is appended to it. */
  lemma ParsePathExtend(path: string, t: string)
    requires ParsePath(path).Some?
    ensures ParsePath(path + t) == Some(Segments(Remainder(path + t)))
    ensures ParsePath(path) == Some(Segments(Remainder(path)))
  {
    SliceConcat(path, t, |ROOT_NAME|);
    ParsePathGeneral(path);
    ParsePathGeneral(path + t);
  }

  /** One separator after a name keeps the walk and uses up one unit of slack. */
  lemma SlackAfterName(path: string)
    requires ParsePath(path).Some? && !EndsWithSeparator(path)
    ensures ParsePath(path + [SEPARATING_CHAR]) == ParsePath(path)
    ensures Slack(path + [SEPARATING_CHAR]) < Slack(path)
  {
    ParsePathTrailing(path);
    RemainderWellEnded(path);
    assert Terminated(path + [SEPARATING_CHAR]) == Terminated(path);
  }

  /**
   * One separator after a separator: the walk is kept if the remainder
   * ended in a single separator, which uses up the last unit of slack, and
   * otherwise gains an empty segment.
   */
  lemma SlackAfterSeparator(path: string)
    requires ParsePath(path).Some? && EndsWithSeparator(path)
    ensures var r := Remainder(path);
      ParsePath(path + [SEPARATING_CHAR]) == Some(Segments(r) + (if WellEnded(r) then [] else [""]))
    ensures WellEnded(Remainder(path)) ==> Slack(path + [SEPARATING_CHAR]) < Slack(path)
  {
    var r := Remainder(path);
    ParsePathExtend(path, [SEPARATING_CHAR]);
    RemainderConcat(path, [SEPARATING_CHAR]);
    SegmentsConcat(r, [SEPARATING_CHAR]);
    assert Segments([SEPARATING_CHAR]) == [];
    var e: seq<string> := if WellEnded(r) then [] else [""];
    assert Segments(r) + e + [] == Segments(r) + e;
    var r' := r + [SEPARATING_CHAR];
    assert !WellEnded(r') by {
      if r != [] {
        assert r'[|r'| - 2] == r[|r| - 1];
      }
    }
  }

  /** A name after a separator: the walk gains an empty segment, or two, then the name. */
  lemma NameAfterSeparator(path: string, name: string)
    requires ParsePath(path).Some? && EndsWithSeparator(path) && ValidSegment(name)
    ensures var r := Remainder(path);
      ParsePath(path + [SEPARATING_CHAR] + name) == Some(Segments(r) + ((if WellEnded(r) then [] else [""]) + ["", name]))
  {
    var r := Remainder(path);
    var q := path + [SEPARATING_CHAR] + name;
    var t := [SEPARATING_CHAR] + name + [SEPARATING_CHAR];
    TerminatedAppend(path, name);
    ConcatAssoc(path, [SEPARATING_CHAR], name + [SEPARATING_CHAR]);
    ConcatAssoc([SEPARATING_CHAR], name, [SEPARATING_CHAR]);
    assert Terminated(q) == path + t;
    assert Remainder(q) == Remainder(path + t);
    ConcatAssoc(path, [SEPARATING_CHAR], name);
    ParsePathExtend(path, [SEPARATING_CHAR] + name);
    RemainderConcat(path, t);
    SegmentsConcat(r, t);
    SegmentsSlashName(name);
    var e: seq<string> := if WellEnded(r) then [] else [""];
    ConcatAssoc(Segments(r), e, ["", name]);
  }

  /**
   * Appending a separator and a name without separators to a path that
   * parses either walks further (the walk gains segments) or keeps the walk
   * and uses up slack.
   */
  lemma ChildPathSegments(path: string, name: string) returns (extra: seq<string>)
    requires ParsePath(path).Some? && SEPARATING_CHAR !in name
    ensures ParsePath(path + [SEPARATING_CHAR] + name) == Some(ParsePath(path).value + extra)
    ensures extra == [] ==> Slack(path + [SEPARATING_CHAR] + name) < Slack(path)
  {
    var segs := ParsePath(path).value;
    ParsePathGeneral(path);
    var r := Remainder(path);
    if name == [] {
      assert path + [SEPARATING_CHAR] + name == path + [SEPARATING_CHAR];
      if !EndsWithSeparator(path) {
        SlackAfterName(path);
        extra := [];
        assert segs + extra == segs;
      } else {
        SlackAfterSeparator(path);
        extra := if WellEnded(r) then [] else [""];
      }
    } else if !EndsWithSeparator(path) {
      ParsePathAppend(path, name);
      extra := [name];
    } else {
      NameAfterSeparator(path, name);
      extra := (if WellEnded(r) then [] else [""]) + ["", name];
    }
  }

  /** Whatever stands before the first separator is dropped: the walk starts after it. */
  lemma RemainderSkipsRoot(root: string, name: string)
    requires SEPARATING_CHAR !in root && ValidSegment(name)
    ensures Remainder(root + [SEPARATING_CHAR] + name) == name + [SEPARATING_CHAR]
  {
    var u := name + [SEPARATING_CHAR];
    var r := root + [SEPARATING_CHAR];
    TerminatedAppend(root, name);
    SeparatorAfterPlain(root, u);
    SliceConcat(r, u, |root| + 1);
    assert r[|root| + 1..] == [];
  }

  /** Text free of the separator, then a separator: the first separator is the one right after the text. */
  lemma SeparatorAfterPlain(root: string, u: string)
    requires SEPARATING_CHAR !in root
    ensures IndexOf(root + [SEPARATING_CHAR] + u, SEPARATING_CHAR) == |root|
  {
    assert IndexOf(root, SEPARATING_CHAR) == |root|;
    ConcatAssoc(root, [SEPARATING_CHAR], u);
    IndexOfSkip(root, [SEPARATING_CHAR] + u, SEPARATING_CHAR);
  }

  /** Only the first two characters of the root segment are checked, so `"C:abc"` is the root. */
  lemma RootSegmentPrefixOnly()
    ensures ParsePath("C:abc") == Some([])
  {
    assert "C:abc"[..2] == ROOT_NAME;
    assert "C:abc" != ROOT_NAME;
    RemainderNoSeparator("C:abc");
  }

  /** A path of a root segment and one name walks to that name, whatever the root segment holds after `C:`. */
  lemma ParsePathSkipsRoot(root: string, name: string)
    requires |root| >= |ROOT_NAME| && root[..|ROOT_NAME|] == ROOT_NAME
    requires SEPARATING_CHAR !in root && ValidSegment(name)
    ensures ParsePath(root + [SEPARATING_CHAR] + name) == Some([name])
  {
    var q := root + [SEPARATING_CHAR] + name;
    ConcatAssoc(root, [SEPARATING_CHAR], name);
    SliceConcat(root, [SEPARATING_CHAR] + name, |ROOT_NAME|);
    ParsePathGeneral(q);
    RemainderSkipsRoot(root, name);
    SegmentsSingle(name);
  }

  /** Text between the root name and the first separator is skipped, so `"C:x/a"` walks like `"C:/a"`. */
  lemma RootSegmentSkipped()
    ensures ParsePath("C:x/a") == ParsePath("C:/a") == Some(["a"])
  {
    RootSegmentExample("C:x");
    assert "C:x" + "/a" == "C:x/a";
    RootSegmentExample("C:");
    assert "C:" + "/a" == "C:/a";
  }

  lemma RootSegmentExample(root: string)
    requires root == "C:x" || root == "C:"
    ensures ParsePath(root + "/a") == Some(["a"])
  {
    assert root[..2] == ROOT_NAME;
    assert root + "/a" == root + [SEPARATING_CHAR] + "a";
    ParsePathSkipsRoot(root, "a");
  }

  /** Paths that do not begin with the root name resolve to nothing. */
  lemma MalformedPaths()
    ensures ParsePath("") == None
    ensures ParsePath("C") == None
    ensures ParsePath("D:/a") == None
  {
    assert "D:/a"[..2][0] == 'D';
  }

  /** The node reached from `n` by the children named by `segs`; none at the first missing name. */
  function AtPath(n: Node, segs: seq<string>): (r: Option<Node>)
    ensures r.Some? && segs != [] ==> r.value.name == segs[|segs| - 1]
    decreases |segs|
  {
    if segs == [] then Some(n)
    else match GetChildByName(n, segs[0])
      case None => None
      case Some(c) => AtPath(c, segs[1..])
  }

  /** `m` may take the place of the node at `segs`: that node exists and has `m`'s name. */
  predicate Fits(n: Node, segs: seq<string>, m: Node)
  {
    AtPath(n, segs).Some? && AtPath(n, segs).value.name == m.name
  }

  /**
   * `n` with the node at `segs` exchanged for `m`, everything else kept; `n`
   * itself when `segs` does not resolve.
   */
  function ReplaceAt(n: Node, segs: seq<string>, m: Node): (r: Node)
    ensures AtPath(n, segs).None? ==> r == n
    ensures segs != [] ==> r.name == n.name && r.kind == n.kind
    ensures segs == [] ==> r == m
    decreases |segs|
  {
    if segs == [] then m
    else match LookupIndex(n.children, segs[0])
      case None => n
      case Some(i) => n.(children := n.children[i := ReplaceAt(n.children[i], segs[1..], m)])
  }

  /** Walking a path in two pieces is walking it in one. */
  lemma {:induction false} AtPathConcat(n: Node, p: seq<string>, q: seq<string>)
    ensures AtPath(n, p + q) == if AtPath(n, p).Some? then AtPath(AtPath(n, p).value, q) else None
    decreases |p|
  {
    if p == [] {
      assert p + q == q;
    } else {
      assert (p + q)[0] == p[0];
      assert (p + q)[1..] == p[1..] + q;
      match GetChildByName(n, p[0])
      case None =>
      case Some(c) => AtPathConcat(c, p[1..], q);
    }
  }

  /**
   * One level of an exchange: the first name picks child `i`, the exchange
   * happens inside that child, and the child keeps its name, so the first
   * name still picks it afterwards.
   */
  lemma ReplaceStep(n: Node, p: seq<string>, m: Node) returns (i: nat, c: Node)
    requires p != [] && Fits(n, p, m)
    ensures LookupIndex(n.children, p[0]) == Some(i) && i < |n.children| && c == n.children[i]
    ensures AtPath(n, p) == AtPath(c, p[1..]) && Fits(c, p[1..], m)
    ensures ReplaceAt(n, p, m) == n.(children := n.children[i := ReplaceAt(c, p[1..], m)])
    ensures ReplaceAt(c, p[1..], m).name == c.name
    ensures LookupIndex(ReplaceAt(n, p, m).children, p[0]) == Some(i)
  {
    i := LookupIndex(n.children, p[0]).value;
    c := n.children[i];
    var c' := ReplaceAt(c, p[1..], m);
    assert AtPath(n, p) == AtPath(c, p[1..]);
    if p[1..] == [] {
      assert c'.name == c.name;
    }
    LookupSameNames(n.children, n.children[i := c'], p[0]);
  }

  /** After the exchange the path leads to `m`, and to what lies below `m`. */
  lemma {:induction false} ReplaceAtResolves(n: Node, p: seq<string>, m: Node, q: seq<string>)
    requires Fits(n, p, m)
    ensures AtPath(ReplaceAt(n, p, m), p + q) == AtPath(m, q)
    decreases |p|
  {
    if p == [] {
      assert p + q == q;
    } else {
      var i, c := ReplaceStep(n, p, m);
      ConsConcat(p, q);
      ReplaceAtResolves(c, p[1..], m, q);
    }
  }

  /** Two paths diverge when, after a common prefix, they name different children. */
  predicate Diverge(p: seq<string>, q: seq<string>)
    decreases |p|
  {
    p != [] && q != [] && (p[0] != q[0] || Diverge(p[1..], q[1..]))
  }

  /** Nodes off the exchanged path are untouched. */
  lemma {:induction false} ReplaceAtFrame(n: Node, p: seq<string>, m: Node, q: seq<string>)
    requires Fits(n, p, m) && Diverge(p, q)
    ensures AtPath(ReplaceAt(n, p, m), q) == AtPath(n, q)
    decreases |p|
  {
    var i, c := ReplaceStep(n, p, m);
    var r := ReplaceAt(n, p, m);
    LookupSameNames(n.children, r.children, q[0]);
    if p[0] == q[0] {
      ReplaceAtFrame(c, p[1..], m, q[1..]);
    } else {
      var j := LookupIndex(n.children, q[0]);
      if j.Some? {
        assert r.children[j.value] == n.children[j.value];
      }
    }
  }

  /** Looking at a prefix of the exchanged path shows the exchange made inside that subtree. */
  lemma {:induction false} ReplaceAtPrefix(n: Node, p: seq<string>, q: seq<string>, m: Node)
    requires Fits(n, p + q, m)
    ensures AtPath(n, p).Some?
    ensures AtPath(ReplaceAt(n, p + q, m), p) == Some(ReplaceAt(AtPath(n, p).value, q, m))
    decreases |p|
  {
    AtPathConcat(n, p, q);
    if p == [] {
      assert p + q == q;
    } else {
      ConsConcat(p, q);
      var i, c := ReplaceStep(n, p + q, m);
      ReplaceAtPrefix(c, p[1..], q, m);
    }
  }

  /** Putting back the node that is already there changes nothing. */
  lemma {:induction false} ReplaceAtSelf(n: Node, p: seq<string>)
    requires AtPath(n, p).Some?
    ensures ReplaceAt(n, p, AtPath(n, p).value) == n
    decreases |p|
  {
    if p != [] {
      var i := LookupIndex(n.children, p[0]).value;
      var c := n.children[i];
      assert AtPath(n, p) == AtPath(c, p[1..]);
      ReplaceAtSelf(c, p[1..]);
      assert n.children[i := c] == n.children;
    }
  }

  /** An exchange at a path overrides an earlier exchange below it. */
  lemma {:induction false} ReplaceAtOverwrite(n: Node, p: seq<string>, q: seq<string>, a: Node, b: Node)
    requires Fits(n, p + q, a) && Fits(n, p, b)
    ensures ReplaceAt(ReplaceAt(n, p + q, a), p, b) == ReplaceAt(n, p, b)
    decreases |p|
  {
    if p != [] {
      ConsConcat(p, q);
      var i, c := ReplaceStep(n, p + q, a);
      var j, d := ReplaceStep(n, p, b);
      var r := ReplaceAt(n, p + q, a);
      var c' := ReplaceAt(c, p[1..] + q, a);
      AtPathConcat(c, p[1..], q);
      ReplaceAtOverwrite(c, p[1..], q, a, b);
      assert r.children[i := ReplaceAt(c', p[1..], b)] == n.children[i := ReplaceAt(c, p[1..], b)];
    }
  }

  /** Every node of a valid tree is valid. */
  lemma {:induction false} AtPathValid(n: Node, p: seq<string>)
    requires Valid(n) && AtPath(n, p).Some?
    ensures Valid(AtPath(n, p).value)
    decreases |p|
  {
    if p != [] {
      var c := GetChildByName(n, p[0]).value;
      AtPathValid(c, p[1..]);
    }
  }

  /** Every node below a tree whose names are letters and digits has such names too. */
  lemma {:induction false} AtPathAlnum(n: Node, p: seq<string>)
    requires NamesAlnum(n) && AtPath(n, p).Some?
    ensures NamesAlnum(AtPath(n, p).value)
    decreases |p|
  {
    if p != [] {
      var c := GetChildByName(n, p[0]).value;
      AtPathAlnum(c, p[1..]);
    }
  }

  /** Exchanging a node for a valid one with the same name keeps the tree valid. */
  lemma {:induction false} ReplaceAtValid(n: Node, p: seq<string>, m: Node)
    requires Valid(n) && Valid(m) && Fits(n, p, m)
    ensures Valid(ReplaceAt(n, p, m))
    decreases |p|
  {
    if p != [] {
      var i := LookupIndex(n.children, p[0]).value;
      var c := n.children[i];
      var c' := ReplaceAt(c, p[1..], m);
      assert AtPath(n, p) == AtPath(c, p[1..]);
      ReplaceAtValid(c, p[1..], m);
      assert c'.name == c.name;
      var r := ReplaceAt(n, p, m);
      assert r.children == n.children[i := c'];
      assert forall j :: 0 <= j < |r.children| ==> r.children[j].name == n.children[j].name;
    }
  }

  /** Every name strictly below `n` is letters and digits only. */
  predicate ChildrenAlnum(n: Node)
  {
    forall i :: 0 <= i < |n.children| ==> NamesAlnum(n.children[i])
  }

  /** Exchanging a node for one whose descendants have plain names keeps every name below the top plain. */
  lemma {:induction false} ReplaceAtAlnum(n: Node, p: seq<string>, m: Node)
    requires ChildrenAlnum(n) && ChildrenAlnum(m) && Fits(n, p, m)
    ensures ChildrenAlnum(ReplaceAt(n, p, m))
    decreases |p|
  {
    if p != [] {
      var i := LookupIndex(n.children, p[0]).value;
      var c := n.children[i];
      var c' := ReplaceAt(c, p[1..], m);
      assert AtPath(n, p) == AtPath(c, p[1..]);
      assert NamesAlnum(c);
      ReplaceAtAlnum(c, p[1..], m);
      assert c'.name == c.name;
      var r := ReplaceAt(n, p, m);
      assert r.children == n.children[i := c'];
    }
  }
}

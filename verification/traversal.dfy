/**
 * The recursive walks of `FilesystemTree` over one subtree: the deep copy
 * (`copySubTree`), the counts (`recursiveStats`), the indented listing
 * (`recursiveDisplay`) and the search (`find`). Each is related to
 * `Outline`, an independent pre-order enumeration of the subtree.
 */
module Traversal {
  import opened Wrappers
  import opened Strings
  import opened FsNode
  import opened Paths

  /** A node of a subtree together with its depth below the subtree's top. */
  datatype Entry = Entry(depth: nat, node: Node)

  /** Every node of the subtree exactly once, parents before children, children in order. */
  function Outline(n: Node, depth: nat): (es: seq<Entry>)
    ensures |es| >= 1 && es[0] == Entry(depth, n)
    decreases n
  {
    [Entry(depth, n)] + OutlineAll(n.children, depth)
  }

  /** The outlines of a list of siblings, one after another; their children sit one level deeper. */
  function OutlineAll(cs: seq<Node>, depth: nat): seq<Entry>
    decreases cs
  {
    if cs == [] then [] else Outline(cs[0], depth + 1) + OutlineAll(cs[1..], depth)
  }

  lemma OutlineAllSplit(cs: seq<Node>, i: nat, depth: nat)
    requires i < |cs|
    ensures OutlineAll(cs[i..], depth) == Outline(cs[i], depth + 1) + OutlineAll(cs[i + 1..], depth)
  {
    assert cs[i..][1..] == cs[i + 1..];
  }

  // ---------------------------------------------------------------- copySubTree

  /**
   * `copySubTree`: a new node from the sanitizing constructor with the same
   * name and type, then a copy of each child added in order via `addChild`.
   */
  function CopySubTree(n: Node): (r: Node)
    ensures r.name == Sanitize(n.name) && r.kind == n.kind
    decreases n, 1
  {
    TypeCodeRoundTrip(n, GetType(n));
    CopyChildren(n, NewNode(n.name, GetType(n)), 0)
  }

  /** The copy loop of `copySubTree` from child `i` on, adding into `acc`. */
  function CopyChildren(src: Node, acc: Node, i: nat): (r: Node)
    requires i <= |src.children|
    ensures r.name == acc.name && r.kind == acc.kind
    decreases src, 0, |src.children| - i
  {
    if i == |src.children| then acc
    else CopyChildren(src, AddChild(acc, CopySubTree(src.children[i])).0, i + 1)
  }

  /**
   * Because the copy is rebuilt through `addChild` and the sanitizing
   * constructor, it is valid and has plain names whatever the input.
   */
  lemma {:induction false} CopySubTreeValid(n: Node)
    ensures Valid(CopySubTree(n)) && NamesAlnum(CopySubTree(n))
    decreases n, 1
  {
    TypeCodeRoundTrip(n, GetType(n));
    CopyChildrenValid(n, NewNode(n.name, GetType(n)), 0);
  }

  lemma {:induction false} CopyChildrenValid(src: Node, acc: Node, i: nat)
    requires i <= |src.children|
    requires Valid(acc) && NamesAlnum(acc)
    ensures Valid(CopyChildren(src, acc, i)) && NamesAlnum(CopyChildren(src, acc, i))
    decreases src, 0, |src.children| - i
  {
    if i < |src.children| {
      var c := CopySubTree(src.children[i]);
      CopySubTreeValid(src.children[i]);
      AddChildValid(acc, c);
      AddChildAlnum(acc, c);
      CopyChildrenValid(src, AddChild(acc, c).0, i + 1);
    }
  }

  /**
   * On a valid subtree whose names below the top are plain, the copy is the
   * subtree itself except that the top's name is sanitized (so a root named
   * `"C:"` comes back as `"C"`).
   */
  lemma {:induction false} CopySubTreeIdentity(n: Node)
    requires Valid(n) && ChildrenAlnum(n)
    ensures CopySubTree(n) == n.(name := Sanitize(n.name))
    decreases n, 1
  {
    TypeCodeRoundTrip(n, GetType(n));
    assert n.children[..0] == [];
    CopyChildrenIdentity(n, Sanitize(n.name), 0);
    assert n.children[..|n.children|] == n.children;
  }

  lemma {:induction false} CopyChildrenIdentity(src: Node, name: string, i: nat)
    requires Valid(src) && ChildrenAlnum(src)
    requires i <= |src.children|
    ensures CopyChildren(src, Node(name, src.kind, src.children[..i]), i) == Node(name, src.kind, src.children)
    decreases src, 0, |src.children| - i
  {
    var acc := Node(name, src.kind, src.children[..i]);
    if i == |src.children| {
      assert src.children[..i] == src.children;
    } else {
      var c := src.children[i];
      CopySubTreeIdentity(c);
      assert CopySubTree(c) == c;
      assert !HasChild(acc, c.name) by {
        forall j | 0 <= j < i ensures acc.children[j].name != c.name {
          LexLessIrreflexive(c.name);
        }
      }
      assert InsertionPoint(acc.children, c.name) == i;
      assert AddChild(acc, c).0 == Node(name, src.kind, src.children[..i + 1]) by {
        assert acc.children[..i] + [c] + acc.children[i..] == src.children[..i + 1];
      }
      CopyChildrenIdentity(src, name, i + 1);
    }
  }

  // ---------------------------------------------------------------- recursiveStats

  /**
   * `recursiveStats`: (directories, files) in the subtree. A node named
   * `ROOT_NAME` is not counted as a directory, and only directories are
   * descended into.
   */
  function Stats(n: Node): (r: (nat, nat))
    decreases n, 1
  {
    var own := (if n.name != ROOT_NAME && n.kind == Directory then 1 else 0, if n.kind == File then 1 else 0);
    if n.kind == Directory then
      var rest := StatsFrom(n, 0);
      (own.0 + rest.0, own.1 + rest.1)
    else
      own
  }

  /** The child loop of `recursiveStats` from child `i` on. */
  function StatsFrom(n: Node, i: nat): (r: (nat, nat))
    requires i <= |n.children|
    decreases n, 0, |n.children| - i
  {
    if i == |n.children| then (0, 0)
    else
      var a := Stats(n.children[i]);
      var b := StatsFrom(n, i + 1);
      (a.0 + b.0, a.1 + b.1)
  }

  function CountDirs(es: seq<Entry>): nat
  {
    if es == [] then 0 else (if es[0].node.kind == Directory then 1 else 0) + CountDirs(es[1..])
  }

  /** Directory entries whose name is not the root name. */
  function CountDirsNotRoot(es: seq<Entry>): nat
  {
    if es == [] then 0
    else (if es[0].node.kind == Directory && es[0].node.name != ROOT_NAME then 1 else 0) + CountDirsNotRoot(es[1..])
  }

  function CountFiles(es: seq<Entry>): nat
  {
    if es == [] then 0 else (if es[0].node.kind == File then 1 else 0) + CountFiles(es[1..])
  }

  /** Entries carrying the name `name`. */
  function CountNamed(es: seq<Entry>, name: string): nat
  {
    if es == [] then 0 else (if es[0].node.name == name then 1 else 0) + CountNamed(es[1..], name)
  }

  lemma {:induction false} CountsConcat(a: seq<Entry>, b: seq<Entry>, name: string)
    ensures CountDirs(a + b) == CountDirs(a) + CountDirs(b)
    ensures CountDirsNotRoot(a + b) == CountDirsNotRoot(a) + CountDirsNotRoot(b)
    ensures CountFiles(a + b) == CountFiles(a) + CountFiles(b)
    ensures CountNamed(a + b, name) == CountNamed(a, name) + CountNamed(b, name)
    decreases |a|
  {
    if a == [] {
      assert a + b == b;
    } else {
      assert (a + b)[0] == a[0];
      assert (a + b)[1..] == a[1..] + b;
      CountsConcat(a[1..], b, name);
    }
  }

  /** On a valid subtree, the stats count the non-root-named directories and the files of its outline. */
  lemma {:induction false} StatsCountsOutline(n: Node, depth: nat)
    requires Valid(n)
    ensures Stats(n) == (CountDirsNotRoot(Outline(n, depth)), CountFiles(Outline(n, depth)))
    decreases n, 1
  {
    var es := Outline(n, depth);
    CountsConcat([Entry(depth, n)], OutlineAll(n.children, depth), "");
    if n.kind == Directory {
      StatsFromCounts(n, 0, depth);
    }
    assert n.children[0..] == n.children;
  }

  lemma {:induction false} StatsFromCounts(n: Node, i: nat, depth: nat)
    requires Valid(n) && i <= |n.children|
    ensures StatsFrom(n, i) == (CountDirsNotRoot(OutlineAll(n.children[i..], depth)), CountFiles(OutlineAll(n.children[i..], depth)))
    decreases n, 0, |n.children| - i
  {
    if i < |n.children| {
      OutlineAllSplit(n.children, i, depth);
      CountsConcat(Outline(n.children[i], depth + 1), OutlineAll(n.children[i + 1..], depth), "");
      StatsCountsOutline(n.children[i], depth + 1);
      StatsFromCounts(n, i + 1, depth);
    }
  }

  /** Every entry of the outline below a top whose descendants have plain names has a plain name. */
  lemma {:induction false} OutlineAlnum(n: Node, depth: nat)
    requires NamesAlnum(n)
    ensures forall k :: 0 <= k < |Outline(n, depth)| ==> AllAlnum(Outline(n, depth)[k].node.name)
    decreases n
  {
    OutlineAllAlnum(n.children, depth);
  }

  lemma {:induction false} OutlineAllAlnum(cs: seq<Node>, depth: nat)
    requires forall i :: 0 <= i < |cs| ==> NamesAlnum(cs[i])
    ensures forall k :: 0 <= k < |OutlineAll(cs, depth)| ==> AllAlnum(OutlineAll(cs, depth)[k].node.name)
    decreases cs
  {
    if cs != [] {
      OutlineAlnum(cs[0], depth + 1);
      OutlineAllAlnum(cs[1..], depth);
    }
  }

  /** A plain name is never the root name. */
  lemma {:induction false} CountDirsPlain(es: seq<Entry>)
    requires forall k :: 0 <= k < |es| ==> AllAlnum(es[k].node.name)
    ensures CountDirsNotRoot(es) == CountDirs(es)
    decreases |es|
  {
    if es != [] {
      assert !IsAlnum(ROOT_NAME[1]);
      assert es[0].node.name != ROOT_NAME;
      CountDirsPlain(es[1..]);
    }
  }

  // ---------------------------------------------------------------- recursiveDisplay

  /** The prefix added per level of depth. */
  const INDENT: string := "|     "

  /** A directory's name in angle brackets, a file's name bare. */
  function Label(n: Node): string
  {
    if n.kind == Directory then "<" + n.name + ">" else n.name
  }

  /** `d` copies of the per-level prefix. */
  function Indent(d: nat): (s: string)
    ensures |s| == d * |INDENT|
  {
    if d == 0 then "" else Indent(d - 1) + INDENT
  }

  /** `recursiveDisplay`: this node's line, then, for a directory, each child's lines one level deeper. */
  function Display(n: Node, preSpace: string): (lines: seq<string>)
    ensures |lines| >= 1 && lines[0] == preSpace + Label(n)
    decreases n, 1
  {
    [preSpace + Label(n)] + (if n.kind == Directory then DisplayFrom(n, preSpace + INDENT, 0) else [])
  }

  /** The child loop of `recursiveDisplay` from child `i` on. */
  function DisplayFrom(n: Node, preSpace: string, i: nat): seq<string>
    requires i <= |n.children|
    decreases n, 0, |n.children| - i
  {
    if i == |n.children| then [] else Display(n.children[i], preSpace) + DisplayFrom(n, preSpace, i + 1)
  }

  /** The line of each entry: the prefix, its depth's indentation, its label. */
  function Render(pre: string, es: seq<Entry>): (lines: seq<string>)
    decreases |es|
  {
    if es == [] then [] else [pre + Indent(es[0].depth) + Label(es[0].node)] + Render(pre, es[1..])
  }

  lemma {:induction false} RenderConcat(pre: string, a: seq<Entry>, b: seq<Entry>)
    ensures Render(pre, a + b) == Render(pre, a) + Render(pre, b)
    decreases |a|
  {
    if a == [] {
      assert a + b == b;
    } else {
      assert (a + b)[0] == a[0];
      assert (a + b)[1..] == a[1..] + b;
      RenderConcat(pre, a[1..], b);
    }
  }

  lemma {:induction false} RenderShape(pre: string, es: seq<Entry>)
    ensures |Render(pre, es)| == |es|
    ensures forall k :: 0 <= k < |es| ==> Render(pre, es)[k] == pre + Indent(es[k].depth) + Label(es[k].node)
    decreases |es|
  {
    if es != [] {
      RenderShape(pre, es[1..]);
    }
  }

  /**
   * On a valid subtree the listing has one line per outline entry, in
   * outline order, each indented by its depth.
   */
  lemma {:induction false} DisplayIsRenderedOutline(n: Node, pre: string, depth: nat)
    requires Valid(n)
    ensures Display(n, pre + Indent(depth)) == Render(pre, Outline(n, depth))
    decreases n, 1
  {
    RenderConcat(pre, [Entry(depth, n)], OutlineAll(n.children, depth));
    assert pre + Indent(depth) + INDENT == pre + Indent(depth + 1);
    DisplayFromRendered(n, pre, depth, 0);
    assert n.children[0..] == n.children;
  }

  lemma {:induction false} DisplayFromRendered(n: Node, pre: string, depth: nat, i: nat)
    requires Valid(n) && i <= |n.children|
    ensures DisplayFrom(n, pre + Indent(depth + 1), i) == Render(pre, OutlineAll(n.children[i..], depth))
    decreases n, 0, |n.children| - i
  {
    if i < |n.children| {
      OutlineAllSplit(n.children, i, depth);
      RenderConcat(pre, Outline(n.children[i], depth + 1), OutlineAll(n.children[i + 1..], depth));
      DisplayIsRenderedOutline(n.children[i], pre, depth + 1);
      DisplayFromRendered(n, pre, depth, i + 1);
    }
  }

  // ---------------------------------------------------------------- find

  /**
   * Below `n` no directory has an empty name. The child path `find` builds
   * for a directory named "" ends in a separator and re-resolves to the
   * parent for up to two levels before it walks on, so its lines differ
   * from the structural walk's.
   */
  predicate NoEmptyDirNames(n: Node)
  {
    forall i :: 0 <= i < |n.children| ==>
      (n.children[i].kind == Directory ==> n.children[i].name != "") && NoEmptyDirNames(n.children[i])
  }

  /**
   * `find` at one resolved node: first a line `startPath/pName` for each
   * child named `pName`, then the matches inside each child directory, in
   * child order, with that child's path as the new start path.
   */
  function FindFrom(n: Node, startPath: string, pName: string): (lines: seq<string>)
    decreases n, 2
  {
    DirectMatches(n, startPath, pName, 0) + SubdirMatches(n, startPath, pName, 0)
  }

  /** The first loop of `find`: one line per child named `pName`, from child `i` on. */
  function DirectMatches(n: Node, startPath: string, pName: string, i: nat): (lines: seq<string>)
    requires i <= |n.children|
    ensures forall k :: 0 <= k < |lines| ==> lines[k] == startPath + [SEPARATING_CHAR] + pName
    decreases |n.children| - i
  {
    if i == |n.children| then []
    else
      var own := if n.children[i].name == pName then [startPath + [SEPARATING_CHAR] + pName] else [];
      own + DirectMatches(n, startPath, pName, i + 1)
  }

  /** The second loop of `find`: recursion into each child directory, from child `i` on. */
  function SubdirMatches(n: Node, startPath: string, pName: string, i: nat): (lines: seq<string>)
    requires i <= |n.children|
    decreases n, 1, |n.children| - i
  {
    if i == |n.children| then []
    else
      var c := n.children[i];
      (if c.kind == Directory then FindFrom(c, startPath + [SEPARATING_CHAR] + c.name, pName) else [])
        + SubdirMatches(n, startPath, pName, i + 1)
  }

  /** On a valid subtree, `find` writes one line per node strictly below the start that is named `pName`. */
  lemma {:induction false} FindCountsOutline(n: Node, startPath: string, pName: string, depth: nat)
    requires Valid(n)
    ensures |FindFrom(n, startPath, pName)| == CountNamed(OutlineAll(n.children, depth), pName)
    decreases n, 2
  {
    FindCountsFrom(n, startPath, pName, depth, 0);
    assert n.children[0..] == n.children;
  }

  lemma {:induction false} FindCountsFrom(n: Node, startPath: string, pName: string, depth: nat, i: nat)
    requires Valid(n) && i <= |n.children|
    ensures |DirectMatches(n, startPath, pName, i)| + |SubdirMatches(n, startPath, pName, i)|
      == CountNamed(OutlineAll(n.children[i..], depth), pName)
    decreases n, 1, |n.children| - i
  {
    if i < |n.children| {
      var c := n.children[i];
      OutlineAllSplit(n.children, i, depth);
      CountsConcat(Outline(c, depth + 1), OutlineAll(n.children[i + 1..], depth), pName);
      CountsConcat([Entry(depth + 1, c)], OutlineAll(c.children, depth + 1), pName);
      if c.kind == Directory {
        FindCountsOutline(c, startPath + [SEPARATING_CHAR] + c.name, pName, depth + 1);
      } else {
        assert c.children == [];
      }
      FindCountsFrom(n, startPath, pName, depth, i + 1);
    }
  }

  /** `pathToPointer` on a root node: parse the path, then walk it. */
  function PathToNode(root: Node, path: string): (r: Option<Node>)
    ensures path == ROOT_NAME ==> r == Some(root)
    ensures ParsePath(path).None? ==> r.None?
  {
    match ParsePath(path)
    case None => None
    case Some(segs) => AtPath(root, segs)
  }

  lemma AlnumHasNoSeparator(s: string)
    requires AllAlnum(s)
    ensures SEPARATING_CHAR !in s
    ensures !EndsWithSeparator(s)
  {
  }

  /**
   * A start for the search that re-resolves to the node the walk is at: a
   * valid tree, a start path naming `n` and not ending in a separator, and
   * no directory below `n` whose name would re-resolve to its parent.
   */
  predicate WalkStart(root: Node, segs: seq<string>, n: Node, startPath: string)
  {
    && Valid(root) && AtPath(root, segs) == Some(n)
    && ParsePath(startPath) == Some(segs) && !EndsWithSeparator(startPath)
    && ChildrenAlnum(n) && NoEmptyDirNames(n)
  }

  /** The path of a child directory is again a start the search re-resolves to that child. */
  lemma ChildWalkStart(root: Node, segs: seq<string>, n: Node, startPath: string, i: nat)
    requires WalkStart(root, segs, n, startPath) && i < |n.children| && n.children[i].kind == Directory
    ensures var c := n.children[i];
      WalkStart(root, segs + [c.name], c, startPath + [SEPARATING_CHAR] + c.name)
  {
    var c := n.children[i];
    var sp := startPath + [SEPARATING_CHAR] + c.name;
    assert NamesAlnum(c);
    AlnumHasNoSeparator(c.name);
    ParsePathAppend(startPath, c.name);
    AtPathConcat(root, segs, [c.name]);
    AtPathValid(root, segs);
    GetChildAgree(n, i);
    assert AtPath(root, segs + [c.name]) == Some(c);
    assert !EndsWithSeparator(sp) by {
      assert sp[|sp| - 1] == c.name[|c.name| - 1];
    }
  }

  /**
   * Every line `find` writes is a path that resolves, from the root, to a
   * node named `pName`.
   */
  lemma {:induction false} FindLinesResolve(root: Node, segs: seq<string>, n: Node, startPath: string, pName: string)
    requires WalkStart(root, segs, n, startPath) && pName != ""
    ensures forall l :: l in FindFrom(n, startPath, pName) ==>
      PathToNode(root, l).Some? && PathToNode(root, l).value.name == pName
    decreases n, 2
  {
    AtPathValid(root, segs);
    DirectLinesResolve(root, segs, n, startPath, pName, 0);
    SubdirLinesResolve(root, segs, n, startPath, pName, 0);
  }

  lemma DirectLinesResolve(root: Node, segs: seq<string>, n: Node, startPath: string, pName: string, i: nat)
    requires AtPath(root, segs) == Some(n) && i <= |n.children|
    requires ParsePath(startPath) == Some(segs) && !EndsWithSeparator(startPath)
    requires ChildrenAlnum(n) && pName != ""
    ensures forall l :: l in DirectMatches(n, startPath, pName, i) ==>
      PathToNode(root, l).Some? && PathToNode(root, l).value.name == pName
  {
    if DirectMatches(n, startPath, pName, i) != [] {
      DirectMatchesHasChild(n, startPath, pName, i);
      NamedChildResolves(root, segs, n, startPath, pName);
    }
  }

  /** The first loop writes a line only when some child has the name. */
  lemma DirectMatchesHasChild(n: Node, startPath: string, pName: string, i: nat)
    requires i <= |n.children| && DirectMatches(n, startPath, pName, i) != []
    ensures HasChild(n, pName)
  {
    var j := i;
    while j < |n.children| && n.children[j].name != pName
      invariant i <= j <= |n.children|
      invariant DirectMatches(n, startPath, pName, j) == DirectMatches(n, startPath, pName, i)
      decreases |n.children| - j
    {
      j := j + 1;
    }
  }

  /** A child name appended to a start path that walks to `n` walks to that child. */
  lemma NamedChildResolves(root: Node, segs: seq<string>, n: Node, startPath: string, pName: string)
    requires AtPath(root, segs) == Some(n) && ParsePath(startPath) == Some(segs) && !EndsWithSeparator(startPath)
    requires ChildrenAlnum(n) && HasChild(n, pName) && pName != ""
    ensures PathToNode(root, startPath + [SEPARATING_CHAR] + pName) == GetChildByName(n, pName)
  {
    var c := GetChildByName(n, pName).value;
    assert NamesAlnum(c);
    AlnumHasNoSeparator(pName);
    ParsePathAppend(startPath, pName);
    AtPathConcat(root, segs, [pName]);
  }

  lemma {:induction false} SubdirLinesResolve(root: Node, segs: seq<string>, n: Node, startPath: string, pName: string, i: nat)
    requires WalkStart(root, segs, n, startPath) && i <= |n.children| && pName != ""
    ensures forall l :: l in SubdirMatches(n, startPath, pName, i) ==>
      PathToNode(root, l).Some? && PathToNode(root, l).value.name == pName
    decreases n, 1, |n.children| - i
  {
    if i < |n.children| {
      var c := n.children[i];
      if c.kind == Directory {
        ChildWalkStart(root, segs, n, startPath, i);
        FindLinesResolve(root, segs + [c.name], c, startPath + [SEPARATING_CHAR] + c.name, pName);
      }
      SubdirLinesResolve(root, segs, n, startPath, pName, i + 1);
    }
  }
}

/**
 * `FilesystemTree`: the root directory and the path-addressed operations on
 * it. Every mutation resolves its paths on the current tree value, applies
 * `addChild`/`removeChild` to the resolved node and writes the changed node
 * back with `ReplaceAt`.
 */
module FilesystemTree {
  import opened Wrappers
  import opened Seqs
  import opened Strings
  import opened FsNode
  import opened Paths
  import opened Traversal

  datatype FileSystem = FileSystem(root: Node)

  /**
   * What every operation keeps: the root is a valid directory and every name
   * below it is letters and digits only (so no user node carries the root's
   * name or a separator).
   */
  predicate TreeInv(t: FileSystem)
  {
    t.root.kind == Directory && Valid(t.root) && ChildrenAlnum(t.root)
  }

  // ---------------------------------------------------------------- comparing paths

  predicate IsPrefix(p: seq<string>, q: seq<string>)
  {
    |p| <= |q| && q[..|p|] == p
  }

  lemma PrefixWhole(p: seq<string>)
    ensures p[..|p|] == p
  {
  }

  /** A path running through `p + [x]` is `p` followed by a rest starting with `x`. */
  lemma PrefixSplit(p: seq<string>, x: string, q: seq<string>)
    requires IsPrefix(p + [x], q)
    ensures q == p + q[|p|..] && q[|p|..] != [] && q[|p|..][0] == x
  {
    assert q[..|p|] == (p + [x])[..|p|] == p;
    assert q[|p|] == (p + [x])[|p|];
    assert q == q[..|p|] + q[|p|..];
  }

  /** Two paths either split somewhere or one continues the other. */
  lemma {:induction false} PathsCompare(p: seq<string>, q: seq<string>)
    ensures Diverge(p, q) || IsPrefix(p, q) || IsPrefix(q, p)
    decreases |p|
  {
    if p != [] && q != [] && p[0] == q[0] {
      PathsCompare(p[1..], q[1..]);
      if IsPrefix(p[1..], q[1..]) {
        assert q[..|p|] == [q[0]] + q[1..][..|p| - 1];
        assert p == [p[0]] + p[1..];
      } else if IsPrefix(q[1..], p[1..]) {
        assert p[..|q|] == [p[0]] + p[1..][..|q| - 1];
        assert q == [q[0]] + q[1..];
      }
    }
  }

  lemma {:induction false} DivergeSym(p: seq<string>, q: seq<string>)
    requires Diverge(p, q)
    ensures Diverge(q, p)
    decreases |p|
  {
    if p[0] == q[0] {
      DivergeSym(p[1..], q[1..]);
    }
  }

  /** Paths that split are not prefixes of one another. */
  lemma {:induction false} DivergeNotPrefix(p: seq<string>, q: seq<string>)
    requires Diverge(p, q)
    ensures !IsPrefix(p, q) && !IsPrefix(q, p)
    decreases |p|
  {
    if p[0] == q[0] {
      DivergeNotPrefix(p[1..], q[1..]);
    }
  }

  /**
   * A path that splits from `p + [x]` splits from `p` already, or runs
   * through `p` and continues with a name other than `x`.
   */
  lemma {:induction false} DivergeExtend(p: seq<string>, x: string, q: seq<string>)
    requires Diverge(p + [x], q)
    ensures Diverge(p, q) || (|q| > |p| && q[..|p|] == p && q[|p|] != x)
    decreases |p|
  {
    if p != [] {
      assert (p + [x])[0] == p[0];
      assert (p + [x])[1..] == p[1..] + [x];
      if p[0] == q[0] {
        DivergeExtend(p[1..], x, q[1..]);
        if !Diverge(p, q) {
          assert q[..|p|] == [q[0]] + q[1..][..|p| - 1];
          assert p == [p[0]] + p[1..];
        }
      }
    } else {
      assert p + [x] == [x];
    }
  }

  // ---------------------------------------------------------------- change at a path

  /** `addChild` on the node at `segs`, written back into the tree. */
  function InsertAt(n: Node, segs: seq<string>, c: Node): (r: (Node, bool))
    requires AtPath(n, segs).Some?
    ensures r.1 <==> AtPath(n, segs).value.kind == Directory && !HasChild(AtPath(n, segs).value, c.name)
    ensures !r.1 ==> r.0 == n
  {
    var p := AtPath(n, segs).value;
    ReplaceAtSelf(n, segs);
    var (p', ok) := AddChild(p, c);
    (ReplaceAt(n, segs, p'), ok)
  }

  /** `removeChild` on the node at `segs`, written back into the tree; no change when `segs` does not resolve. */
  function DeleteAt(n: Node, segs: seq<string>, name: string): (r: (Node, bool))
    ensures r.1 <==> AtPath(n, segs).Some? && AtPath(n, segs).value.kind == Directory && HasChild(AtPath(n, segs).value, name)
    ensures !r.1 ==> r.0 == n
  {
    match AtPath(n, segs)
    case None => (n, false)
    case Some(p) =>
      ReplaceAtSelf(n, segs);
      var (p', ok) := RemoveChild(p, name);
      (ReplaceAt(n, segs, p'), ok)
  }

  /** After a successful insert the new child is found one step below the path. */
  lemma InsertAtFinds(n: Node, segs: seq<string>, c: Node)
    requires AtPath(n, segs).Some? && InsertAt(n, segs, c).1
    ensures AtPath(InsertAt(n, segs, c).0, segs + [c.name]) == Some(c)
  {
    var p := AtPath(n, segs).value;
    var p' := AddChild(p, c).0;
    ReplaceAtResolves(n, segs, p', [c.name]);
    AddChildFinds(p, c);
    assert AtPath(p', [c.name]) == AtPath(c, []);
  }

  /** An insert changes nothing on paths that split from the new child's path. */
  lemma InsertAtFrame(n: Node, segs: seq<string>, c: Node, q: seq<string>)
    requires AtPath(n, segs).Some? && Diverge(segs + [c.name], q)
    ensures AtPath(InsertAt(n, segs, c).0, q) == AtPath(n, q)
  {
    var p := AtPath(n, segs).value;
    var p' := AddChild(p, c).0;
    DivergeExtend(segs, c.name, q);
    if Diverge(segs, q) {
      ReplaceAtFrame(n, segs, p', q);
    } else {
      var rest := q[|segs|..];
      assert q == segs + rest;
      ReplaceAtResolves(n, segs, p', rest);
      AddChildLookupOther(p, c, rest[0]);
      AtPathConcat(n, segs, rest);
    }
  }

  /** After a removal in a valid tree nothing of that name is left below the path. */
  lemma DeleteAtGone(n: Node, segs: seq<string>, name: string)
    requires Valid(n) && AtPath(n, segs).Some?
    ensures AtPath(DeleteAt(n, segs, name).0, segs + [name]) == None
  {
    var p := AtPath(n, segs).value;
    var p' := RemoveChild(p, name).0;
    AtPathValid(n, segs);
    RemoveChildValid(p, name);
    ReplaceAtResolves(n, segs, p', [name]);
    if !DeleteAt(n, segs, name).1 {
      AtPathConcat(n, segs, [name]);
    }
  }

  /** A removal changes nothing on paths that split from the removed child's path. */
  lemma DeleteAtFrame(n: Node, segs: seq<string>, name: string, q: seq<string>)
    requires Diverge(segs + [name], q)
    ensures AtPath(DeleteAt(n, segs, name).0, q) == AtPath(n, q)
  {
    if AtPath(n, segs).Some? {
      var p := AtPath(n, segs).value;
      var p' := RemoveChild(p, name).0;
      DivergeExtend(segs, name, q);
      if Diverge(segs, q) {
        ReplaceAtFrame(n, segs, p', q);
      } else {
        var rest := q[|segs|..];
        assert q == segs + rest;
        ReplaceAtResolves(n, segs, p', rest);
        RemoveChildLookupOther(p, name, rest[0]);
        AtPathConcat(n, segs, rest);
      }
    }
  }

  /** Removing what was just inserted gives back the tree. */
  lemma InsertThenDelete(n: Node, segs: seq<string>, c: Node)
    requires AtPath(n, segs).Some? && InsertAt(n, segs, c).1
    ensures DeleteAt(InsertAt(n, segs, c).0, segs, c.name) == (n, true)
  {
    var p := AtPath(n, segs).value;
    var p' := AddChild(p, c).0;
    assert segs + [] == segs;
    ReplaceAtResolves(n, segs, p', []);
    AddThenRemove(p, c);
    ReplaceAtOverwrite(n, segs, [], p', p);
    ReplaceAtSelf(n, segs);
  }

  /** Every name below the nodes of a tree with plain names below the root is plain. */
  lemma {:induction false} AtPathChildrenAlnum(n: Node, segs: seq<string>)
    requires ChildrenAlnum(n) && AtPath(n, segs).Some?
    ensures ChildrenAlnum(AtPath(n, segs).value)
    ensures segs != [] ==> NamesAlnum(AtPath(n, segs).value)
  {
    if segs != [] {
      var c := GetChildByName(n, segs[0]).value;
      AtPathAlnum(c, segs[1..]);
    }
  }

  lemma AddChildChildrenAlnum(n: Node, c: Node)
    requires ChildrenAlnum(n) && NamesAlnum(c)
    ensures ChildrenAlnum(AddChild(n, c).0)
  {
    var m := AddChild(n, c).0;
    if AddChild(n, c).1 {
      var pos := InsertionPoint(n.children, c.name);
      forall i | 0 <= i < |m.children| ensures NamesAlnum(m.children[i]) {
        if i < pos {
          assert m.children[i] == n.children[i];
        } else if i > pos {
          assert m.children[i] == n.children[i - 1];
        }
      }
    }
  }

  lemma RemoveChildChildrenAlnum(n: Node, name: string)
    requires ChildrenAlnum(n)
    ensures ChildrenAlnum(RemoveChild(n, name).0)
  {
    var m := RemoveChild(n, name).0;
    if RemoveChild(n, name).1 {
      var k := LookupIndex(n.children, name).value;
      forall i | 0 <= i < |m.children| ensures NamesAlnum(m.children[i]) {
        if i < k {
          assert m.children[i] == n.children[i];
        } else {
          assert m.children[i] == n.children[i + 1];
        }
      }
    }
  }

  /** Inserting a valid node with plain names keeps the tree invariant. */
  lemma InsertAtInv(t: FileSystem, segs: seq<string>, c: Node)
    requires TreeInv(t) && AtPath(t.root, segs).Some? && Valid(c) && NamesAlnum(c)
    ensures TreeInv(FileSystem(InsertAt(t.root, segs, c).0))
  {
    var p := AtPath(t.root, segs).value;
    var p' := AddChild(p, c).0;
    AtPathValid(t.root, segs);
    AddChildValid(p, c);
    ReplaceAtValid(t.root, segs, p');
    AtPathChildrenAlnum(t.root, segs);
    AddChildChildrenAlnum(p, c);
    ReplaceAtAlnum(t.root, segs, p');
  }

  /** A removal keeps the tree invariant. */
  lemma DeleteAtInv(t: FileSystem, segs: seq<string>, name: string)
    requires TreeInv(t)
    ensures TreeInv(FileSystem(DeleteAt(t.root, segs, name).0))
  {
    if AtPath(t.root, segs).Some? {
      var p := AtPath(t.root, segs).value;
      var p' := RemoveChild(p, name).0;
      AtPathValid(t.root, segs);
      RemoveChildValid(p, name);
      ReplaceAtValid(t.root, segs, p');
      AtPathChildrenAlnum(t.root, segs);
      RemoveChildChildrenAlnum(p, name);
      ReplaceAtAlnum(t.root, segs, p');
    }
  }

  // ---------------------------------------------------------------- construction

  /**
   * The default constructor: an empty directory built through the name
   * filter, then renamed to `ROOT_NAME`, which the filter would not let through.
   */
  function EmptyTree(): (t: FileSystem)
    ensures TreeInv(t)
    ensures t.root == Node(ROOT_NAME, Directory, [])
  {
    FileSystem(NewNode("", DIR_TYPE).(name := ROOT_NAME))
  }

  /** The path a string names in the tree, if any. */
  lemma PathToNodeAt(t: FileSystem, path: string)
    requires PathToNode(t.root, path).Some?
    ensures ParsePath(path).Some? && AtPath(t.root, ParsePath(path).value) == PathToNode(t.root, path)
  {
  }

  // ---------------------------------------------------------------- create

  /**
   * `create`: builds the node through the name filter and, unless `pName`
   * is the root name or the parent's own name, hands it to the parent's
   * `addChild` and reports success, whether or not `addChild` took it. The
   * source dereferences the parent unchecked, so it must resolve.
   */
  function Create(t: FileSystem, pName: string, pType: int, parentPath: string): (r: (FileSystem, bool))
    requires pType == DIR_TYPE || pType == FILE_TYPE
    requires PathToNode(t.root, parentPath).Some?
    ensures r.1 <==> pName != ROOT_NAME && pName != PathToNode(t.root, parentPath).value.name
    ensures !r.1 ==> r.0 == t
  {
    var segs := ParsePath(parentPath).value;
    var parent := AtPath(t.root, segs).value;
    if pName != ROOT_NAME && pName != parent.name then
      (FileSystem(InsertAt(t.root, segs, NewNode(pName, pType)).0), true)
    else
      (t, false)
  }

  /**
   * When the parent is a directory without a child of the filtered name,
   * the new node is found under the parent, by segments and by the path
   * string `parentPath/name`, and it has the requested type.
   */
  lemma CreateAdds(t: FileSystem, pName: string, pType: int, parentPath: string)
    requires pType == DIR_TYPE || pType == FILE_TYPE
    requires PathToNode(t.root, parentPath).Some?
    requires Create(t, pName, pType, parentPath).1
    requires PathToNode(t.root, parentPath).value.kind == Directory
    requires !HasChild(PathToNode(t.root, parentPath).value, Sanitize(pName))
    ensures var t' := Create(t, pName, pType, parentPath).0;
      && AtPath(t'.root, ParsePath(parentPath).value + [Sanitize(pName)]) == Some(NewNode(pName, pType))
      && GetType(NewNode(pName, pType)) == pType
      && (Sanitize(pName) != "" && !EndsWithSeparator(parentPath) ==>
            PathToNode(t'.root, parentPath + [SEPARATING_CHAR] + Sanitize(pName)) == Some(NewNode(pName, pType)))
  {
    var segs := ParsePath(parentPath).value;
    InsertAtFinds(t.root, segs, NewNode(pName, pType));
    if Sanitize(pName) != "" && !EndsWithSeparator(parentPath) {
      AlnumHasNoSeparator(Sanitize(pName));
      ParsePathAppend(parentPath, Sanitize(pName));
    }
  }

  /** A create changes nothing on paths that split from the new node's path. */
  lemma CreateFrame(t: FileSystem, pName: string, pType: int, parentPath: string, q: seq<string>)
    requires pType == DIR_TYPE || pType == FILE_TYPE
    requires PathToNode(t.root, parentPath).Some?
    requires Diverge(ParsePath(parentPath).value + [Sanitize(pName)], q)
    ensures AtPath(Create(t, pName, pType, parentPath).0.root, q) == AtPath(t.root, q)
  {
    InsertAtFrame(t.root, ParsePath(parentPath).value, NewNode(pName, pType), q);
  }

  lemma CreateInv(t: FileSystem, pName: string, pType: int, parentPath: string)
    requires TreeInv(t)
    requires pType == DIR_TYPE || pType == FILE_TYPE
    requires PathToNode(t.root, parentPath).Some?
    ensures TreeInv(Create(t, pName, pType, parentPath).0)
  {
    InsertAtInv(t, ParsePath(parentPath).value, NewNode(pName, pType));
  }

  /** A create that added a node is undone by removing that node from the same parent path. */
  lemma RemoveUndoesCreate(t: FileSystem, pName: string, pType: int, parentPath: string)
    requires pType == DIR_TYPE || pType == FILE_TYPE
    requires PathToNode(t.root, parentPath).Some?
    requires Create(t, pName, pType, parentPath).1
    requires PathToNode(t.root, parentPath).value.kind == Directory
    requires !HasChild(PathToNode(t.root, parentPath).value, Sanitize(pName))
    ensures Remove(Create(t, pName, pType, parentPath).0, Sanitize(pName), parentPath) == (t, true)
  {
    var segs := ParsePath(parentPath).value;
    var c := NewNode(pName, pType);
    InsertThenDelete(t.root, segs, c);
    AlnumNotRoot(c.name);
  }

  /** A name of letters and digits is never the root name. */
  lemma AlnumNotRoot(s: string)
    requires AllAlnum(s)
    ensures s != ROOT_NAME
  {
    assert !IsAlnum(ROOT_NAME[1]);
  }

  /**
   * `create` reports success for a name the parent already holds although
   * nothing is added: here on a root holding directory `a`.
   */
  lemma CreateDuplicateReportsSuccess()
    ensures var t := FileSystem(Node(ROOT_NAME, Directory, [Node("a", Directory, [])]));
      Create(t, "a", DIR_TYPE, ROOT_NAME) == (t, true)
  {
    var t := FileSystem(Node(ROOT_NAME, Directory, [Node("a", Directory, [])]));
    assert Sanitize("a") == "a";
    assert t.root.children[0].name == "a";
  }

  /**
   * `create` with the result `addChild` gives: success exactly when the node
   * went in. An unresolved parent path is a failure rather than a null access.
   */
  function CreateChecked(t: FileSystem, pName: string, pType: int, parentPath: string): (r: (FileSystem, bool))
    requires pType == DIR_TYPE || pType == FILE_TYPE
    ensures r.1 <==> r.0 != t
    ensures r.1 ==> PathToNode(t.root, parentPath).Some? && r.0 == Create(t, pName, pType, parentPath).0
  {
    match PathToNode(t.root, parentPath)
    case None => (t, false)
    case Some(parent) =>
      var segs := ParsePath(parentPath).value;
      var c := NewNode(pName, pType);
      if pName != ROOT_NAME && pName != parent.name && InsertAt(t.root, segs, c).1 then
        InsertAtFinds(t.root, segs, c);
        assert AtPath(t.root, segs + [c.name]) == None by {
          AtPathConcat(t.root, segs, [c.name]);
        }
        (FileSystem(InsertAt(t.root, segs, c).0), true)
      else
        (t, false)
  }

  /**
   * The checked create fails exactly on an unresolved parent, the refused
   * names, a file parent and a name the parent already holds; where the
   * parent resolves it leaves the tree `create` leaves.
   */
  lemma CreateCheckedReports(t: FileSystem, pName: string, pType: int, parentPath: string)
    requires pType == DIR_TYPE || pType == FILE_TYPE
    ensures var r := CreateChecked(t, pName, pType, parentPath);
      var parent := PathToNode(t.root, parentPath);
      && (r.1 <==> (parent.Some? && pName != ROOT_NAME && pName != parent.value.name
                    && parent.value.kind == Directory && !HasChild(parent.value, Sanitize(pName))))
      && (parent.Some? ==> r.0 == Create(t, pName, pType, parentPath).0)
  {
  }

  lemma CreateCheckedInv(t: FileSystem, pName: string, pType: int, parentPath: string)
    requires TreeInv(t)
    requires pType == DIR_TYPE || pType == FILE_TYPE
    ensures TreeInv(CreateChecked(t, pName, pType, parentPath).0)
  {
    if CreateChecked(t, pName, pType, parentPath).1 {
      CreateInv(t, pName, pType, parentPath);
    }
  }

  // ---------------------------------------------------------------- remove

  /**
   * `remove`: refuses the root name and an unresolved parent path, and
   * otherwise reports what the parent's `removeChild` reports.
   */
  function Remove(t: FileSystem, pName: string, parentPath: string): (r: (FileSystem, bool))
    ensures r.1 <==> (pName != ROOT_NAME && PathToNode(t.root, parentPath).Some?
      && PathToNode(t.root, parentPath).value.kind == Directory && HasChild(PathToNode(t.root, parentPath).value, pName))
    ensures !r.1 ==> r.0 == t
  {
    if pName == ROOT_NAME then (t, false)
    else match ParsePath(parentPath)
      case None => (t, false)
      case Some(segs) =>
        var d := DeleteAt(t.root, segs, pName);
        (FileSystem(d.0), d.1)
  }

  /** A remove of a non-root name on a parsable path is `removeChild` at that path. */
  lemma RemoveParts(t: FileSystem, pName: string, parentPath: string)
    requires pName != ROOT_NAME && ParsePath(parentPath).Some?
    ensures Remove(t, pName, parentPath).0.root == DeleteAt(t.root, ParsePath(parentPath).value, pName).0
  {
  }

  /**
   * After a remove in a valid tree nothing named `pName` is left under the
   * parent, and paths that split from the removed node's path are untouched.
   */
  lemma RemoveEffect(t: FileSystem, pName: string, parentPath: string, q: seq<string>)
    requires TreeInv(t) && PathToNode(t.root, parentPath).Some?
    ensures var t' := Remove(t, pName, parentPath).0;
      && (pName != ROOT_NAME ==> AtPath(t'.root, ParsePath(parentPath).value + [pName]) == None)
      && (Diverge(ParsePath(parentPath).value + [pName], q) ==> AtPath(t'.root, q) == AtPath(t.root, q))
  {
    var segs := ParsePath(parentPath).value;
    if pName != ROOT_NAME {
      DeleteAtGone(t.root, segs, pName);
      if Diverge(segs + [pName], q) {
        DeleteAtFrame(t.root, segs, pName, q);
      }
    }
  }

  lemma RemoveInv(t: FileSystem, pName: string, parentPath: string)
    requires TreeInv(t)
    ensures TreeInv(Remove(t, pName, parentPath).0)
  {
    if ParsePath(parentPath).Some? {
      DeleteAtInv(t, ParsePath(parentPath).value, pName);
    }
  }

  // ---------------------------------------------------------------- move

  /**
   * `move`: with both paths resolved and `pName` under the source, the same
   * node is handed to the destination's `addChild`; only when that succeeds
   * is it removed from the source.
   */
  function Move(t: FileSystem, pName: string, sourcePath: string, destPath: string): (r: (FileSystem, bool))
    ensures r.1 <==> (pName != ROOT_NAME
      && PathToNode(t.root, sourcePath).Some? && PathToNode(t.root, destPath).Some?
      && HasChild(PathToNode(t.root, sourcePath).value, pName)
      && PathToNode(t.root, destPath).value.kind == Directory
      && !HasChild(PathToNode(t.root, destPath).value, pName))
    ensures !r.1 ==> r.0 == t
  {
    if pName == ROOT_NAME || PathToNode(t.root, sourcePath).None? || PathToNode(t.root, destPath).None? then (t, false)
    else match GetChildByName(PathToNode(t.root, sourcePath).value, pName)
      case None => (t, false)
      case Some(m) =>
        var ins := InsertAt(t.root, ParsePath(destPath).value, m);
        if ins.1 then (FileSystem(DeleteAt(ins.0, ParsePath(sourcePath).value, pName).0), true)
        else (t, false)
  }

  /**
   * Where a child `x` exists below `S` but not below `D`, the two child paths
   * split unless `D` lies inside the child below `S`.
   */
  lemma ChildPathsSplit(n: Node, S: seq<string>, D: seq<string>, x: string)
    requires AtPath(n, S + [x]).Some? && AtPath(n, D + [x]).None?
    ensures Diverge(S + [x], D + [x]) || IsPrefix(S + [x], D)
  {
    var a, b := S + [x], D + [x];
    PrefixWhole(a);
    PrefixWhole(b);
    PathsCompare(a, b);
    if IsPrefix(a, b) {
      if |a| < |b| {
        assert b[..|a|] == D[..|a|];
      }
    } else if IsPrefix(b, a) {
      if |b| < |a| {
        assert a == b + a[|b|..];
        AtPathConcat(n, b, a[|b|..]);
      }
    }
  }

  /** An insert below `D` keeps every other resolvable path resolvable. */
  lemma InsertKeepsPath(n: Node, D: seq<string>, c: Node, S: seq<string>)
    requires AtPath(n, D).Some? && AtPath(n, D + [c.name]).None? && AtPath(n, S).Some?
    ensures AtPath(InsertAt(n, D, c).0, S).Some?
  {
    var b := D + [c.name];
    PathsCompare(b, S);
    if Diverge(b, S) {
      InsertAtFrame(n, D, c, S);
    } else if IsPrefix(S, b) {
      InsertKeepsAncestor(n, D, c, S);
    } else {
      InsertKeepsDescendant(n, D, c, S);
    }
  }

  /** A path leading to the insert point or above it still resolves after the insert. */
  lemma InsertKeepsAncestor(n: Node, D: seq<string>, c: Node, S: seq<string>)
    requires AtPath(n, D).Some? && AtPath(n, D + [c.name]).None? && AtPath(n, S).Some?
    requires IsPrefix(S, D + [c.name])
    ensures AtPath(InsertAt(n, D, c).0, S).Some?
  {
    var b := D + [c.name];
    PrefixWhole(b);
    if |S| < |b| {
      var p' := AddChild(AtPath(n, D).value, c).0;
      assert S == D[..|S|];
      assert D == S + D[|S|..];
      ReplaceAtPrefix(n, S, D[|S|..], p');
    }
  }

  /** A path through the new node's name does not resolve before the insert. */
  lemma InsertKeepsDescendant(n: Node, D: seq<string>, c: Node, S: seq<string>)
    requires AtPath(n, D + [c.name]).None? && IsPrefix(D + [c.name], S)
    ensures AtPath(n, S).None?
  {
    var b := D + [c.name];
    assert S == b + S[|b|..];
    AtPathConcat(n, b, S[|b|..]);
  }

  /** What a successful move is made of: the node at `S + [pName]` inserted below `D`, then removed below `S`. */
  lemma MoveParts(t: FileSystem, pName: string, sourcePath: string, destPath: string)
    requires Move(t, pName, sourcePath, destPath).1
    ensures var S := ParsePath(sourcePath).value;
      var D := ParsePath(destPath).value;
      && AtPath(t.root, S).Some? && AtPath(t.root, D).Some?
      && AtPath(t.root, S + [pName]).Some? && AtPath(t.root, D + [pName]).None?
      && AtPath(t.root, S + [pName]).value.name == pName
      && InsertAt(t.root, D, AtPath(t.root, S + [pName]).value).1
      && Move(t, pName, sourcePath, destPath).0.root
         == DeleteAt(InsertAt(t.root, D, AtPath(t.root, S + [pName]).value).0, S, pName).0
  {
    var S := ParsePath(sourcePath).value;
    var D := ParsePath(destPath).value;
    AtPathConcat(t.root, S, [pName]);
    AtPathConcat(t.root, D, [pName]);
  }

  /**
   * A move that succeeds leaves the destination's path naming the same node
   * the source's path named before, and nothing at the old place, unless
   * the destination lies inside the moved node.
   */
  lemma MoveCarries(t: FileSystem, pName: string, sourcePath: string, destPath: string)
    requires TreeInv(t) && Move(t, pName, sourcePath, destPath).1
    requires !IsPrefix(ParsePath(sourcePath).value + [pName], ParsePath(destPath).value)
    ensures var t' := Move(t, pName, sourcePath, destPath).0;
      var src := ParsePath(sourcePath).value;
      var dst := ParsePath(destPath).value;
      && AtPath(t'.root, dst + [pName]) == AtPath(t.root, src + [pName])
      && AtPath(t'.root, src + [pName]) == None
  {
    MoveParts(t, pName, sourcePath, destPath);
    var S := ParsePath(sourcePath).value;
    var D := ParsePath(destPath).value;
    var m := AtPath(t.root, S + [pName]).value;
    var t1 := InsertAt(t.root, D, m).0;
    ChildPathsSplit(t.root, S, D, pName);
    InsertKeepsPath(t.root, D, m, S);
    InsertAtFinds(t.root, D, m);
    DeleteAtFrame(t1, S, pName, D + [pName]);
    AtPathValid(t.root, S + [pName]);
    AtPathChildrenAlnum(t.root, S + [pName]);
    InsertAtInv(t, D, m);
    DeleteAtGone(t1, S, pName);
  }

  /** Removing a child from a directory after exchanging something inside that child equals removing it outright. */
  lemma RemoveChildReplaced(n: Node, x: string, rest: seq<string>, m: Node)
    requires n.kind == Directory && Fits(n, [x] + rest, m)
    ensures RemoveChild(ReplaceAt(n, [x] + rest, m), x) == RemoveChild(n, x)
  {
    var p := [x] + rest;
    assert p[0] == x && p[1..] == rest;
    var i := LookupIndex(n.children, x).value;
    var c := n.children[i];
    var c' := ReplaceAt(c, rest, m);
    var r := ReplaceAt(n, p, m);
    assert AtPath(n, p) == AtPath(c, rest);
    assert r.children == n.children[i := c'];
    assert c'.name == c.name by {
      if rest == [] {
        assert AtPath(n, p) == Some(c);
      }
    }
    LookupSameNames(n.children, r.children, x);
    assert r.children[..i] == n.children[..i];
    assert r.children[i + 1..] == n.children[i + 1..];
  }

  /**
   * An insert somewhere inside the child `x` below `S`, followed by removing
   * that child, leaves what removing the child alone leaves.
   */
  lemma InsertInsideThenDelete(n: Node, S: seq<string>, q: seq<string>, x: string, c: Node)
    requires Valid(n) && q != [] && q[0] == x && AtPath(n, S + q).Some?
    ensures AtPath(n, S).Some?
    ensures DeleteAt(InsertAt(n, S + q, c).0, S, x).0 == DeleteAt(n, S, x).0
  {
    AtPathConcat(n, S, q);
    var src := AtPath(n, S).value;
    var p' := AddChild(AtPath(n, S + q).value, c).0;
    assert q == [x] + q[1..];
    AtPathValid(n, S);
    assert src.kind == Directory;
    ReplaceAtPrefix(n, S, q, p');
    RemoveChildReplaced(src, x, q[1..], p');
    ReplaceAtOverwrite(n, S, q, p', RemoveChild(src, x).0);
  }

  /**
   * Moving a directory into its own subtree: the source adds the node below
   * itself and then unlinks it from the source, so the whole subtree drops
   * out of the tree, exactly as a remove would.
   */
  lemma MoveIntoItself(t: FileSystem, pName: string, sourcePath: string, destPath: string)
    requires TreeInv(t) && Move(t, pName, sourcePath, destPath).1
    requires IsPrefix(ParsePath(sourcePath).value + [pName], ParsePath(destPath).value)
    ensures Move(t, pName, sourcePath, destPath).0 == Remove(t, pName, sourcePath).0
  {
    MoveParts(t, pName, sourcePath, destPath);
    var S := ParsePath(sourcePath).value;
    var D := ParsePath(destPath).value;
    var m := AtPath(t.root, S + [pName]).value;
    var q := D[|S|..];
    PrefixSplit(S, pName, D);
    InsertInsideThenDelete(t.root, S, q, pName, m);
    assert Move(t, pName, sourcePath, destPath).0.root == DeleteAt(t.root, S, pName).0;
    RemoveParts(t, pName, sourcePath);
  }

  lemma MoveInv(t: FileSystem, pName: string, sourcePath: string, destPath: string)
    requires TreeInv(t)
    ensures TreeInv(Move(t, pName, sourcePath, destPath).0)
  {
    if Move(t, pName, sourcePath, destPath).1 {
      MoveParts(t, pName, sourcePath, destPath);
      var S := ParsePath(sourcePath).value;
      var D := ParsePath(destPath).value;
      var m := AtPath(t.root, S + [pName]).value;
      AtPathValid(t.root, S + [pName]);
      AtPathChildrenAlnum(t.root, S + [pName]);
      InsertAtInv(t, D, m);
      DeleteAtInv(FileSystem(InsertAt(t.root, D, m).0), S, pName);
    }
  }

  // ---------------------------------------------------------------- copy

  /**
   * `copy`: like `move`, but the destination receives a deep copy made by
   * `copySubTree` before anything is added, and the source keeps its node.
   */
  function Copy(t: FileSystem, pName: string, sourcePath: string, destPath: string): (r: (FileSystem, bool))
    ensures r.1 <==> (pName != ROOT_NAME
      && PathToNode(t.root, sourcePath).Some? && PathToNode(t.root, destPath).Some?
      && HasChild(PathToNode(t.root, sourcePath).value, pName)
      && PathToNode(t.root, destPath).value.kind == Directory
      && !HasChild(PathToNode(t.root, destPath).value, Sanitize(pName)))
    ensures !r.1 ==> r.0 == t
  {
    if pName == ROOT_NAME || PathToNode(t.root, sourcePath).None? || PathToNode(t.root, destPath).None? then (t, false)
    else match GetChildByName(PathToNode(t.root, sourcePath).value, pName)
      case None => (t, false)
      case Some(m) =>
        var ins := InsertAt(t.root, ParsePath(destPath).value, CopySubTree(m));
        (FileSystem(ins.0), ins.1)
  }

  /**
   * In a tree keeping the invariant a copy that succeeds puts an equal
   * subtree under the destination, also when the destination lies inside
   * the copied node, and changes nothing on paths that split from the new
   * node's path, the source among them.
   */
  lemma CopyEffect(t: FileSystem, pName: string, sourcePath: string, destPath: string, q: seq<string>)
    requires TreeInv(t) && Copy(t, pName, sourcePath, destPath).1
    ensures var t' := Copy(t, pName, sourcePath, destPath).0;
      var src := ParsePath(sourcePath).value;
      var dst := ParsePath(destPath).value;
      && AtPath(t'.root, dst + [pName]) == AtPath(t.root, src + [pName])
      && (Diverge(dst + [pName], q) ==> AtPath(t'.root, q) == AtPath(t.root, q))
  {
    var S := ParsePath(sourcePath).value;
    var D := ParsePath(destPath).value;
    var m := GetChildByName(PathToNode(t.root, sourcePath).value, pName).value;
    AtPathConcat(t.root, S, [pName]);
    AtPathValid(t.root, S + [pName]);
    AtPathChildrenAlnum(t.root, S + [pName]);
    CopySubTreeIdentity(m);
    SanitizeIdempotent(m.name);
    assert CopySubTree(m) == m;
    InsertAtFinds(t.root, D, m);
    if Diverge(D + [pName], q) {
      InsertAtFrame(t.root, D, m, q);
    }
  }

  /** A copy that succeeds is undone by removing the copy from the destination. */
  lemma RemoveUndoesCopy(t: FileSystem, pName: string, sourcePath: string, destPath: string)
    requires Copy(t, pName, sourcePath, destPath).1
    ensures Remove(Copy(t, pName, sourcePath, destPath).0, Sanitize(pName), destPath) == (t, true)
  {
    var D := ParsePath(destPath).value;
    var m := GetChildByName(PathToNode(t.root, sourcePath).value, pName).value;
    var c := CopySubTree(m);
    InsertThenDelete(t.root, D, c);
    AlnumNotRoot(c.name);
  }

  lemma CopyInv(t: FileSystem, pName: string, sourcePath: string, destPath: string)
    requires TreeInv(t)
    ensures TreeInv(Copy(t, pName, sourcePath, destPath).0)
  {
    if Copy(t, pName, sourcePath, destPath).1 {
      var m := GetChildByName(PathToNode(t.root, sourcePath).value, pName).value;
      CopySubTreeValid(m);
      InsertAtInv(t, ParsePath(destPath).value, CopySubTree(m));
    }
  }

  // ---------------------------------------------------------------- format

  /**
   * `format`: while the root has children, removes its first child by name,
   * folding each `removeChild` result into the reported result. A file root
   * never holds children, since `addChild` refuses a file; only a file root
   * that somehow held children would make the loop spin.
   */
  method Format(t: FileSystem) returns (t': FileSystem, ok: bool)
    requires t.root.kind == Directory || t.root.children == []
    ensures ok
    ensures t'.root == t.root.(children := [])
    ensures t.root.kind == Directory ==> Stats(t'.root) == (if t.root.name == ROOT_NAME then 0 else 1, 0)
    ensures t.root.kind == File ==> Stats(t'.root) == (0, 1)
  {
    t' := t;
    ok := true;
    var k := 0;
    while NumChildren(t'.root) > 0
      invariant 0 <= k <= |t.root.children|
      invariant t'.root == t.root.(children := t.root.children[k..])
      invariant ok
      decreases |t'.root.children|
    {
      var first := GetChildAt(t'.root, 0).value;
      var removed: bool;
      var r: Node;
      r, removed := RemoveChild(t'.root, first.name).0, RemoveChild(t'.root, first.name).1;
      ok := ok && removed;
      t' := FileSystem(r);
      k := k + 1;
    }
  }

  // ---------------------------------------------------------------- assignment

  /** The copy constructor and copy assignment: the tree becomes `copySubTree` of the other tree's root. */
  function Assign(other: FileSystem): (t: FileSystem)
    ensures Valid(t.root) && NamesAlnum(t.root)
  {
    CopySubTreeValid(other.root);
    FileSystem(CopySubTree(other.root))
  }

  /**
   * In a tree keeping the invariant the assigned copy has the same content
   * below the root, but its root name has passed through the name filter.
   */
  lemma AssignCopiesContent(other: FileSystem)
    requires TreeInv(other)
    ensures Assign(other).root == other.root.(name := Sanitize(other.root.name))
    ensures forall segs :: segs != [] ==> AtPath(Assign(other).root, segs) == AtPath(other.root, segs)
  {
    CopySubTreeIdentity(other.root);
  }

  /**
   * Copying a freshly constructed tree renames its root `"C"`, which the
   * stats then count as a directory: (1, 0) instead of (0, 0).
   */
  lemma AssignRenamesRoot()
    ensures Assign(EmptyTree()).root.name == "C"
    ensures Stats(EmptyTree().root) == (0, 0)
    ensures Stats(Assign(EmptyTree()).root) == (1, 0)
  {
    AssignDefaultTree();
    var c := Node("C", Directory, []);
    assert StatsFrom(c, 0) == (0, 0);
    assert StatsFrom(EmptyTree().root, 0) == (0, 0);
  }

  /** The copy of the default tree is a childless directory named `C`. */
  lemma AssignDefaultTree()
    ensures Assign(EmptyTree()).root == Node("C", Directory, [])
  {
    AssignCopiesContent(EmptyTree());
    assert Sanitize(ROOT_NAME) == "C" by {
      assert ROOT_NAME == ['C'] + [':'];
      SanitizeConcat(['C'], [':']);
    }
  }

  /** Copy assignment that keeps the other root's name, as the name filter cannot. */
  function AssignKeepingRoot(other: FileSystem): (t: FileSystem)
    ensures t.root.name == other.root.name
  {
    FileSystem(CopySubTree(other.root).(name := other.root.name))
  }

  /** In a tree keeping the invariant the name-keeping copy equals the original. */
  lemma AssignKeepingRootIsIdentity(other: FileSystem)
    requires TreeInv(other)
    ensures AssignKeepingRoot(other) == other
    ensures Stats(AssignKeepingRoot(other).root) == Stats(other.root)
  {
    CopySubTreeIdentity(other.root);
  }

  // ---------------------------------------------------------------- stats and display

  /** `displayStats`: the (directories, files) pair written as two labelled lines. */
  function DisplayStats(t: FileSystem): (r: (nat, nat))
  {
    Stats(t.root)
  }

  /**
   * In a tree keeping the invariant the stats count every directory and
   * every file below the root, and the root itself only if it has been
   * renamed away from `ROOT_NAME`.
   */
  lemma StatsCountTree(t: FileSystem)
    requires TreeInv(t)
    ensures var es := OutlineAll(t.root.children, 0);
      DisplayStats(t) == ((if t.root.name == ROOT_NAME then 0 else 1) + CountDirs(es), CountFiles(es))
  {
    StatsCountsOutline(t.root, 0);
    CountsConcat([Entry(0, t.root)], OutlineAll(t.root.children, 0), "");
    OutlineAllAlnum(t.root.children, 0);
    CountDirsPlain(OutlineAll(t.root.children, 0));
  }

  /** `displayTree`: the subtree listing of the root with no prefix. */
  function DisplayTree(t: FileSystem): (lines: seq<string>)
    ensures |lines| >= 1 && lines[0] == Label(t.root)
  {
    Display(t.root, "")
  }

  /** In a valid tree the listing has one line per node in pre-order, each indented by its depth. */
  lemma DisplayTreeOutline(t: FileSystem)
    requires Valid(t.root)
    ensures DisplayTree(t) == Render("", Outline(t.root, 0))
    ensures |DisplayTree(t)| == |Outline(t.root, 0)|
  {
    assert "" + Indent(0) == "";
    DisplayIsRenderedOutline(t.root, "", 0);
    RenderShape("", Outline(t.root, 0));
  }

  // ---------------------------------------------------------------- find

  /** Levels in a subtree: 1 for a node without children. */
  function Height(n: Node): (h: nat)
    ensures h >= 1
    ensures forall i :: 0 <= i < |n.children| ==> Height(n.children[i]) < h
    decreases n, 1
  {
    1 + MaxHeight(n, 0)
  }

  /** The greatest height among the children from `i` on. */
  function MaxHeight(n: Node, i: nat): (h: nat)
    requires i <= |n.children|
    ensures forall j :: i <= j < |n.children| ==> Height(n.children[j]) <= h
    decreases n, 0, |n.children| - i
  {
    if i == |n.children| then 0
    else
      var a := Height(n.children[i]);
      var b := MaxHeight(n, i + 1);
      if a < b then b else a
  }

  lemma {:induction false} AtPathHeight(n: Node, segs: seq<string>)
    requires AtPath(n, segs).Some?
    ensures Height(AtPath(n, segs).value) <= Height(n)
    decreases |segs|
  {
    if segs != [] {
      var i := LookupIndex(n.children, segs[0]).value;
      AtPathHeight(n.children[i], segs[1..]);
    }
  }

  /**
   * `find` as written: each call resolves its start path afresh; it writes
   * `startPath/pName` for each child named `pName`, then calls itself on
   * `startPath/child` for each child directory. `fuel` bounds the depth.
   */
  function FindByPath(root: Node, pName: string, startPath: string, fuel: nat): (lines: seq<string>)
    ensures PathToNode(root, startPath).None? ==> lines == []
    decreases fuel, 0
  {
    match PathToNode(root, startPath)
    case None => []
    case Some(n) =>
      if fuel == 0 then []
      else DirectMatches(n, startPath, pName, 0) + FindSubdirsByPath(root, n, startPath, pName, 0, fuel - 1)
  }

  /** The second loop of `find` as written, from child `i` on. */
  function FindSubdirsByPath(root: Node, n: Node, startPath: string, pName: string, i: nat, fuel: nat): (lines: seq<string>)
    requires i <= |n.children|
    decreases fuel, 1, |n.children| - i
  {
    if i == |n.children| then []
    else
      var c := n.children[i];
      var own := if c.kind == Directory then FindByPath(root, pName, startPath + [SEPARATING_CHAR] + c.name, fuel) else [];
      own + FindSubdirsByPath(root, n, startPath, pName, i + 1, fuel)
  }

  /** Every line ends in a separator followed by `pName`. */
  predicate EndInName(lines: seq<string>, pName: string)
  {
    forall k :: 0 <= k < |lines| ==>
      |lines[k]| > |pName| && lines[k][|lines[k]| - |pName| - 1..] == [SEPARATING_CHAR] + pName
  }

  lemma EndInNameConcat(a: seq<string>, b: seq<string>, pName: string)
    requires EndInName(a, pName) && EndInName(b, pName)
    ensures EndInName(a + b, pName)
  {
    forall k | 0 <= k < |a + b|
      ensures |(a + b)[k]| > |pName| && (a + b)[k][|(a + b)[k]| - |pName| - 1..] == [SEPARATING_CHAR] + pName
    {
      if k < |a| { assert (a + b)[k] == a[k]; } else { assert (a + b)[k] == b[k - |a|]; }
    }
  }

  lemma DirectMatchesEndInName(n: Node, startPath: string, pName: string)
    ensures EndInName(DirectMatches(n, startPath, pName, 0), pName)
  {
    var lines := DirectMatches(n, startPath, pName, 0);
    forall k | 0 <= k < |lines|
      ensures |lines[k]| > |pName| && lines[k][|lines[k]| - |pName| - 1..] == [SEPARATING_CHAR] + pName
    {
      SliceConcat(startPath, [SEPARATING_CHAR] + pName, |startPath|);
      ConcatAssoc(startPath, [SEPARATING_CHAR], pName);
    }
  }

  /** Every line the search as written produces ends in a separator followed by the name. */
  lemma {:induction false} FindByPathLines(root: Node, pName: string, startPath: string, fuel: nat)
    ensures EndInName(FindByPath(root, pName, startPath, fuel), pName)
    decreases fuel, 0
  {
    match PathToNode(root, startPath)
    case None =>
    case Some(n) =>
      if fuel > 0 {
        DirectMatchesEndInName(n, startPath, pName);
        SubdirsByPathLines(root, n, startPath, pName, 0, fuel - 1);
        EndInNameConcat(DirectMatches(n, startPath, pName, 0), FindSubdirsByPath(root, n, startPath, pName, 0, fuel - 1), pName);
      }
  }

  lemma {:induction false} SubdirsByPathLines(root: Node, n: Node, startPath: string, pName: string, i: nat, fuel: nat)
    requires i <= |n.children|
    ensures EndInName(FindSubdirsByPath(root, n, startPath, pName, i, fuel), pName)
    decreases fuel, 1, |n.children| - i
  {
    if i < |n.children| {
      var c := n.children[i];
      var sp := startPath + [SEPARATING_CHAR] + c.name;
      if c.kind == Directory {
        FindByPathLines(root, pName, sp, fuel);
      }
      var own := if c.kind == Directory then FindByPath(root, pName, sp, fuel) else [];
      SubdirsByPathLines(root, n, startPath, pName, i + 1, fuel);
      EndInNameConcat(own, FindSubdirsByPath(root, n, startPath, pName, i + 1, fuel), pName);
    }
  }

  // The counter `find` returns is kept apart from the lines it writes.

  /** The count of the first loop of `find`: one per child named `pName`, from child `i` on. */
  function DirectCount(n: Node, pName: string, i: nat): (k: nat)
    requires i <= |n.children|
    ensures k <= |n.children| - i
    decreases |n.children| - i
  {
    if i == |n.children| then 0
    else (if n.children[i].name == pName then 1 else 0) + DirectCount(n, pName, i + 1)
  }

  /** The counter `matches` of `find` as written. */
  function CountByPath(root: Node, pName: string, startPath: string, fuel: nat): (k: nat)
    decreases fuel, 0
  {
    match PathToNode(root, startPath)
    case None => 0
    case Some(n) =>
      if fuel == 0 then 0
      else DirectCount(n, pName, 0) + CountSubdirsByPath(root, n, startPath, pName, 0, fuel - 1)
  }

  /** What the second loop of `find` adds to the counter, from child `i` on. */
  function CountSubdirsByPath(root: Node, n: Node, startPath: string, pName: string, i: nat, fuel: nat): (k: nat)
    requires i <= |n.children|
    decreases fuel, 1, |n.children| - i
  {
    if i == |n.children| then 0
    else
      var c := n.children[i];
      var own := if c.kind == Directory then CountByPath(root, pName, startPath + [SEPARATING_CHAR] + c.name, fuel) else 0;
      own + CountSubdirsByPath(root, n, startPath, pName, i + 1, fuel)
  }

  /** The first loop counts exactly the lines it writes. */
  lemma {:induction false} DirectCountLines(n: Node, startPath: string, pName: string, i: nat)
    requires i <= |n.children|
    ensures DirectCount(n, pName, i) == |DirectMatches(n, startPath, pName, i)|
    decreases |n.children| - i
  {
    if i < |n.children| {
      DirectCountLines(n, startPath, pName, i + 1);
    }
  }

  /** Whatever the fuel, the counter `find` returns is the number of lines it writes. */
  lemma {:induction false} CountByPathLines(root: Node, pName: string, startPath: string, fuel: nat)
    ensures CountByPath(root, pName, startPath, fuel) == |FindByPath(root, pName, startPath, fuel)|
    decreases fuel, 0
  {
    match PathToNode(root, startPath)
    case None =>
    case Some(n) =>
      if fuel > 0 {
        DirectCountLines(n, startPath, pName, 0);
        CountSubdirsLines(root, n, startPath, pName, 0, fuel - 1);
      }
  }

  lemma {:induction false} CountSubdirsLines(root: Node, n: Node, startPath: string, pName: string, i: nat, fuel: nat)
    requires i <= |n.children|
    ensures CountSubdirsByPath(root, n, startPath, pName, i, fuel) == |FindSubdirsByPath(root, n, startPath, pName, i, fuel)|
    decreases fuel, 1, |n.children| - i
  {
    if i < |n.children| {
      var c := n.children[i];
      if c.kind == Directory {
        CountByPathLines(root, pName, startPath + [SEPARATING_CHAR] + c.name, fuel);
      }
      CountSubdirsLines(root, n, startPath, pName, i + 1, fuel);
    }
  }

  // The recursion of `find` ends on every tree whose names have no separator.
  // A child path that re-resolves to the node it came from (a directory named
  // "" after a path ending in a name or a single separator) uses up slack of
  // the path; every other child path resolves strictly lower in the tree or
  // not at all. So three calls per level of the tree suffice.

  /** A node strictly below `n` is less high than `n`. */
  lemma AtPathBelow(n: Node, segs: seq<string>)
    requires segs != [] && AtPath(n, segs).Some?
    ensures Height(AtPath(n, segs).value) < Height(n)
  {
    var i := LookupIndex(n.children, segs[0]).value;
    AtPathHeight(n.children[i], segs[1..]);
  }

  /** Calls of `find` as written that can still follow from `startPath`, at most. */
  function SearchMeasure(root: Node, startPath: string): (m: nat)
    ensures m <= 3 * Height(root) + 2
    ensures PathToNode(root, startPath).Some? ==> m >= 3
  {
    match PathToNode(root, startPath)
    case None => 0
    case Some(n) =>
      AtPathHeight(root, ParsePath(startPath).value);
      3 * Height(n) + Slack(startPath)
  }

  /** A child path the search recurses into has a smaller measure than its parent's. */
  lemma ChildPathMeasure(root: Node, startPath: string, name: string)
    requires PathToNode(root, startPath).Some? && SEPARATING_CHAR !in name
    ensures SearchMeasure(root, startPath + [SEPARATING_CHAR] + name) < SearchMeasure(root, startPath)
  {
    var segs := ParsePath(startPath).value;
    var n := AtPath(root, segs).value;
    var q := startPath + [SEPARATING_CHAR] + name;
    var extra := ChildPathSegments(startPath, name);
    if PathToNode(root, q).Some? {
      AtPathConcat(root, segs, extra);
      if extra != [] {
        AtPathBelow(n, extra);
      } else {
        assert segs + extra == segs;
      }
    }
  }

  /** The fuel `find` is given: more than the measure of any start path. */
  function SearchFuel(root: Node): (fuel: nat)
    ensures forall p :: SearchMeasure(root, p) <= fuel
  {
    3 * Height(root) + 2
  }

  /** Once the fuel reaches the measure, more fuel changes nothing. */
  lemma {:induction false} FindByPathStable(root: Node, pName: string, startPath: string, f1: nat, f2: nat)
    requires ChildrenAlnum(root)
    requires f1 >= SearchMeasure(root, startPath) && f2 >= SearchMeasure(root, startPath)
    ensures FindByPath(root, pName, startPath, f1) == FindByPath(root, pName, startPath, f2)
    decreases SearchMeasure(root, startPath), 1
  {
    if PathToNode(root, startPath).Some? {
      var n := PathToNode(root, startPath).value;
      PathToNodeAlnum(root, startPath);
      SubdirsStable(root, n, startPath, pName, 0, f1 - 1, f2 - 1);
      FindByPathStep(root, pName, startPath, n, f1);
      FindByPathStep(root, pName, startPath, n, f2);
    }
  }

  /** Below a root whose descendants have plain names, so has every node a path names. */
  lemma PathToNodeAlnum(root: Node, path: string)
    requires ChildrenAlnum(root) && PathToNode(root, path).Some?
    ensures ChildrenAlnum(PathToNode(root, path).value)
  {
    AtPathChildrenAlnum(root, ParsePath(path).value);
  }

  /** One call of `find` as written at a start path that resolves. */
  lemma FindByPathStep(root: Node, pName: string, startPath: string, n: Node, fuel: nat)
    requires PathToNode(root, startPath) == Some(n) && fuel >= 1
    ensures FindByPath(root, pName, startPath, fuel)
      == DirectMatches(n, startPath, pName, 0) + FindSubdirsByPath(root, n, startPath, pName, 0, fuel - 1)
  {
  }

  lemma {:induction false} SubdirsStable(root: Node, n: Node, startPath: string, pName: string, i: nat, g1: nat, g2: nat)
    requires ChildrenAlnum(root) && PathToNode(root, startPath) == Some(n) && ChildrenAlnum(n) && i <= |n.children|
    requires g1 + 1 >= SearchMeasure(root, startPath) && g2 + 1 >= SearchMeasure(root, startPath)
    ensures FindSubdirsByPath(root, n, startPath, pName, i, g1) == FindSubdirsByPath(root, n, startPath, pName, i, g2)
    decreases SearchMeasure(root, startPath), 0, |n.children| - i
  {
    if i < |n.children| {
      var c := n.children[i];
      if c.kind == Directory {
        assert NamesAlnum(c);
        AlnumHasNoSeparator(c.name);
        ChildPathMeasure(root, startPath, c.name);
        FindByPathStable(root, pName, startPath + [SEPARATING_CHAR] + c.name, g1, g2);
      }
      SubdirsStable(root, n, startPath, pName, i + 1, g1, g2);
    }
  }

  /**
   * `find`: the counter it returns and the lines it writes, with fuel enough
   * that the recursion ends on its own on a tree keeping the invariant.
   */
  function Find(t: FileSystem, pName: string, startPath: string): (r: (nat, seq<string>))
    ensures r.0 == |r.1|
    ensures PathToNode(t.root, startPath).None? ==> r == (0, [])
  {
    var fuel := SearchFuel(t.root);
    CountByPathLines(t.root, pName, startPath, fuel);
    (CountByPath(t.root, pName, startPath, fuel), FindByPath(t.root, pName, startPath, fuel))
  }

  /** On a tree keeping the invariant, `find` writes what the unbounded recursion of the source writes. */
  lemma FindUnbounded(t: FileSystem, pName: string, startPath: string, fuel: nat)
    requires TreeInv(t) && fuel >= SearchMeasure(t.root, startPath)
    ensures Find(t, pName, startPath) == (|FindByPath(t.root, pName, startPath, fuel)|, FindByPath(t.root, pName, startPath, fuel))
  {
    FindByPathStable(t.root, pName, startPath, SearchFuel(t.root), fuel);
  }

  /** A directory named "" holding a file `y`. */
  function EmptyNameDir(): Node
  {
    Node("", Directory, [Node("y", File, [])])
  }

  /** The tree `create("!", DIR_TYPE, "C:")` and then `create("y", FILE_TYPE, "C:///")` build. */
  function EmptyNameTree(): FileSystem
  {
    FileSystem(Node(ROOT_NAME, Directory, [EmptyNameDir()]))
  }

  lemma EmptyNameTreeInv()
    ensures TreeInv(EmptyNameTree())
  {
    assert AllAlnum("y");
    assert NamesAlnum(Node("y", File, []));
    assert NamesAlnum(EmptyNameDir());
  }

  /** `C:/` and `C://` name the root. */
  lemma EmptyNameRootPaths()
    ensures ParsePath("C:/") == Some([])
    ensures ParsePath("C://") == Some([])
  {
    assert Remainder("C:/") == [];
    assert IndexOf("C://", SEPARATING_CHAR) == 2;
    assert Remainder("C://") == "/";
  }

  /** `C:///` names the directory called "". */
  lemma EmptyNameDirPath()
    ensures ParsePath("C:///") == Some([""])
  {
    assert IndexOf("C:///", SEPARATING_CHAR) == 2;
    assert Terminated("C:///") == "C:///";
    assert "C:///"[3..] == "//";
    assert Remainder("C:///") == "//";
    assert IndexOf("//", SEPARATING_CHAR) == 0;
    assert "//"[..0] == "" && "//"[1..] == "/";
    assert Segments("/") == [];
    assert Segments("//") == [""] + Segments("/");
    assert Segments("//") == [""];
    assert "C:///" != ROOT_NAME && "C:///"[..2] == ROOT_NAME;
    assert ParsePath("C:///") == Some(Segments(Remainder("C:///")));
  }

  /** `create("!", DIR_TYPE, "C:")` adds a directory whose name the filter empties. */
  lemma EmptyNameFirstCreate()
    ensures Create(EmptyTree(), "!", DIR_TYPE, ROOT_NAME) == (FileSystem(Node(ROOT_NAME, Directory, [Node("", Directory, [])])), true)
  {
    assert Sanitize("!") == "";
    var root := EmptyTree().root;
    var e := Node("", Directory, []);
    assert LookupIndex(root.children, "") == None;
    assert InsertionPoint(root.children, "") == 0;
    assert AddChild(root, e).0 == Node(ROOT_NAME, Directory, [e]);
  }

  /** `create("y", FILE_TYPE, "C:///")` then puts the file into that directory. */
  lemma EmptyNameSecondCreate()
    ensures Create(FileSystem(Node(ROOT_NAME, Directory, [Node("", Directory, [])])), "y", FILE_TYPE, "C:///") == (EmptyNameTree(), true)
  {
    EmptyNameDirPath();
    EmptyNameCreateAt("C:///");
  }

  lemma EmptyNameCreateAt(p: string)
    requires ParsePath(p) == Some([""])
    ensures Create(FileSystem(Node(ROOT_NAME, Directory, [Node("", Directory, [])])), "y", FILE_TYPE, p) == (EmptyNameTree(), true)
  {
    var root := Node(ROOT_NAME, Directory, [Node("", Directory, [])]);
    EmptyNameInsert(root);
    assert NewNode("y", FILE_TYPE) == Node("y", File, []) by {
      assert Sanitize("y") == "y";
    }
  }

  lemma EmptyNameInsert(root: Node)
    requires root == Node(ROOT_NAME, Directory, [Node("", Directory, [])])
    ensures AtPath(root, [""]) == Some(root.children[0])
    ensures InsertAt(root, [""], Node("y", File, [])) == (EmptyNameTree().root, true)
  {
    var e := root.children[0];
    var y := Node("y", File, []);
    assert LookupIndex(root.children, "") == Some(0);
    assert AtPath(root, [""]) == Some(e);
    assert LookupIndex(e.children, "y") == None;
    assert InsertionPoint(e.children, "y") == 0;
    var e' := EmptyNameDir();
    assert e.children == [] && e.kind == Directory;
    assert e.children[..0] + [y] + e.children[0..] == [y];
    assert AddChild(e, y) == (e', true);
    assert ReplaceAt(e, [], e') == e';
    assert ReplaceAt(root, [""], e') == root.(children := [e']);
  }

  lemma EmptyNameHeight()
    ensures SearchFuel(EmptyNameTree().root) == 11
  {
    var y := Node("y", File, []);
    var e := EmptyNameDir();
    var r := EmptyNameTree().root;
    assert MaxHeight(y, 0) == 0;
    assert MaxHeight(e, 1) == 0;
    assert MaxHeight(e, 0) == 1;
    assert MaxHeight(r, 1) == 0;
    assert MaxHeight(r, 0) == 2;
  }

  /** At a path naming the root, the search for `y` finds what it finds one separator further. */
  lemma EmptyNameRootStep(p: string, fuel: nat)
    requires PathToNode(EmptyNameTree().root, p) == Some(EmptyNameTree().root)
    ensures FindByPath(EmptyNameTree().root, "y", p, fuel + 1) == FindByPath(EmptyNameTree().root, "y", p + [SEPARATING_CHAR], fuel)
  {
    var r := EmptyNameTree().root;
    var e := EmptyNameDir();
    FindByPathStep(r, "y", p, r, fuel + 1);
    assert DirectMatches(r, p, "y", 0) == [] by {
      assert DirectMatches(r, p, "y", 1) == [];
    }
    assert FindSubdirsByPath(r, r, p, "y", 0, fuel) == FindByPath(r, "y", p + [SEPARATING_CHAR], fuel) by {
      assert r.children[0] == e && e.kind == Directory;
      assert p + [SEPARATING_CHAR] + e.name == p + [SEPARATING_CHAR];
      assert FindSubdirsByPath(r, r, p, "y", 1, fuel) == [];
    }
  }

  /** At a path naming the directory called "", the search for `y` finds the file. */
  lemma EmptyNameLeafStep(p: string, fuel: nat)
    requires fuel >= 1 && PathToNode(EmptyNameTree().root, p) == Some(EmptyNameDir())
    ensures FindByPath(EmptyNameTree().root, "y", p, fuel) == [p + [SEPARATING_CHAR] + "y"]
  {
    var r := EmptyNameTree().root;
    var e := EmptyNameDir();
    assert DirectMatches(e, p, "y", 1) == [];
    assert FindSubdirsByPath(r, e, p, "y", 1, fuel - 1) == [];
  }

  lemma EmptyNameDirResolves()
    ensures PathToNode(EmptyNameTree().root, "C:///") == Some(EmptyNameDir())
  {
    EmptyNameDirPath();
    assert LookupIndex(EmptyNameTree().root.children, "") == Some(0);
  }

  /**
   * Searching the root for `y` recurses through `C:/`, `C://` (both the root
   * again) and `C:///` (the directory called "") before it finds the file.
   */
  lemma FindThroughEmptyName()
    ensures Find(EmptyNameTree(), "y", ROOT_NAME) == (1, ["C:////y"])
  {
    EmptyNameSearch();
    EmptyNameHeight();
    assert "C:///" + [SEPARATING_CHAR] + "y" == "C:////y";
  }

  lemma EmptyNameSearch()
    ensures FindByPath(EmptyNameTree().root, "y", ROOT_NAME, 11) == ["C:///" + [SEPARATING_CHAR] + "y"]
  {
    EmptyNameRootPaths();
    assert "C:" + [SEPARATING_CHAR] == "C:/";
    assert "C:/" + [SEPARATING_CHAR] == "C://";
    assert "C://" + [SEPARATING_CHAR] == "C:///";
    EmptyNameDirResolves();
    EmptyNameLeafStep("C:///", 8);
    EmptyNameRootStep("C://", 8);
    EmptyNameRootStep("C:/", 9);
    EmptyNameRootStep(ROOT_NAME, 10);
  }

  /**
   * Where the start path does not end in a separator and no directory
   * below the start has an empty name, re-resolving each child path finds
   * that child, so `find` is the structural walk `FindFrom`.
   */
  lemma {:induction false} FindByPathIsWalk(root: Node, segs: seq<string>, n: Node, startPath: string, pName: string, fuel: nat)
    requires WalkStart(root, segs, n, startPath) && fuel >= Height(n)
    ensures FindByPath(root, pName, startPath, fuel) == FindFrom(n, startPath, pName)
    decreases n, 2
  {
    SubdirsByPathIsWalk(root, segs, n, startPath, pName, 0, fuel - 1);
    FindByPathUnfold(root, segs, n, startPath, pName, fuel);
  }

  /** With fuel left, a search whose second loop is the walk's second loop is the walk. */
  lemma FindByPathUnfold(root: Node, segs: seq<string>, n: Node, startPath: string, pName: string, fuel: nat)
    requires WalkStart(root, segs, n, startPath) && fuel >= 1
    requires FindSubdirsByPath(root, n, startPath, pName, 0, fuel - 1) == SubdirMatches(n, startPath, pName, 0)
    ensures FindByPath(root, pName, startPath, fuel) == FindFrom(n, startPath, pName)
  {
    assert PathToNode(root, startPath) == Some(n);
  }

  lemma {:induction false} SubdirsByPathIsWalk(root: Node, segs: seq<string>, n: Node, startPath: string, pName: string, i: nat, fuel: nat)
    requires WalkStart(root, segs, n, startPath) && i <= |n.children| && fuel + 1 >= Height(n)
    ensures FindSubdirsByPath(root, n, startPath, pName, i, fuel) == SubdirMatches(n, startPath, pName, i)
    decreases n, 1, |n.children| - i
  {
    if i < |n.children| {
      var c := n.children[i];
      if c.kind == Directory {
        ChildWalkStart(root, segs, n, startPath, i);
        FindByPathIsWalk(root, segs + [c.name], c, startPath + [SEPARATING_CHAR] + c.name, pName, fuel);
      }
      SubdirsByPathIsWalk(root, segs, n, startPath, pName, i + 1, fuel);
    }
  }

  /**
   * In a tree keeping the invariant, from a start path that does not end in
   * a separator and has no empty directory names below it, `find` counts
   * the nodes strictly below the start named `pName`, and each line it
   * writes resolves to such a node.
   */
  lemma FindMatchesOutline(t: FileSystem, pName: string, startPath: string)
    requires TreeInv(t) && PathToNode(t.root, startPath).Some?
    requires !EndsWithSeparator(startPath) && NoEmptyDirNames(PathToNode(t.root, startPath).value)
    ensures var n := PathToNode(t.root, startPath).value;
      Find(t, pName, startPath).0 == CountNamed(OutlineAll(n.children, 0), pName)
    ensures pName != "" ==> forall l :: l in Find(t, pName, startPath).1 ==>
      PathToNode(t.root, l).Some? && PathToNode(t.root, l).value.name == pName
  {
    var segs := ParsePath(startPath).value;
    var n := AtPath(t.root, segs).value;
    AtPathHeight(t.root, segs);
    AtPathChildrenAlnum(t.root, segs);
    FindByPathIsWalk(t.root, segs, n, startPath, pName, SearchFuel(t.root));
    AtPathValid(t.root, segs);
    FindCountsOutline(n, startPath, pName, 0);
    if pName != "" {
      FindLinesResolve(t.root, segs, n, startPath, pName);
    }
  }
}

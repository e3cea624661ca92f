/**
 * One file or directory entry (`FSNode`): a name, a kind, and an ordered
 * sequence of children that a directory keeps strictly ascending by name.
 */
module FsNode {
  import opened Wrappers
  import opened Strings
  import opened Seqs

  /** Type code of a directory (FSNode.h). */
  const DIR_TYPE: int := 1
  /** Type code of a file (FSNode.h). */
  const FILE_TYPE: int := 0

  datatype Kind = File | Directory

  datatype Node = Node(name: string, kind: Kind, children: seq<Node>)

  /** The kind a meaningful type code stands for. */
  function KindOf(pType: int): (k: Kind)
    requires pType == DIR_TYPE || pType == FILE_TYPE
    ensures k == Directory <==> pType == DIR_TYPE
    ensures k == File <==> pType == FILE_TYPE
  {
    if pType == DIR_TYPE then Directory else File
  }

  /**
   * `getType`: the type code stored in the node. The header's doc comment
   * has the two codes swapped; this follows the code, where a directory
   * reports DIR_TYPE.
   */
  function GetType(n: Node): (t: int)
    ensures t == DIR_TYPE <==> n.kind == Directory
    ensures t == FILE_TYPE <==> n.kind == File
  {
    match n.kind
    case Directory => DIR_TYPE
    case File => FILE_TYPE
  }

  /** Type codes and kinds convert into each other without loss. */
  lemma TypeCodeRoundTrip(n: Node, pType: int)
    requires pType == DIR_TYPE || pType == FILE_TYPE
    ensures KindOf(GetType(n)) == n.kind
    ensures GetType(n.(kind := KindOf(pType))) == pType
  {
  }

  /** `isFile`: the type code is FILE_TYPE. */
  predicate IsFile(n: Node)
  {
    GetType(n) == FILE_TYPE
  }

  /** `isDirectory`: the type code is DIR_TYPE. */
  predicate IsDirectory(n: Node)
  {
    GetType(n) == DIR_TYPE
  }

  /** A node is a file or a directory, never both. */
  lemma FileXorDirectory(n: Node)
    ensures IsFile(n) <==> !IsDirectory(n)
  {
  }

  /**
   * The `FSNode(pName, pType)` constructor: a childless node whose name is
   * filtered to letters and digits.
   */
  function NewNode(pName: string, pType: int): (n: Node)
    requires pType == DIR_TYPE || pType == FILE_TYPE
    ensures AllAlnum(n.name)
    ensures n.name == Sanitize(pName)
    ensures GetType(n) == pType
    ensures n.children == []
  {
    Node(Sanitize(pName), KindOf(pType), [])
  }

  /** Some child of `n` carries the name `name`. */
  predicate HasChild(n: Node, name: string)
  {
    exists i :: 0 <= i < |n.children| && n.children[i].name == name
  }

  /** The position of the first node in `cs` named `name`, the loop of `getChild(name)`. */
  function LookupIndex(cs: seq<Node>, name: string): (r: Option<nat>)
    ensures r.Some? ==> r.value < |cs| && cs[r.value].name == name
    ensures r.Some? ==> forall j :: 0 <= j < r.value ==> cs[j].name != name
    ensures r.None? <==> forall j :: 0 <= j < |cs| ==> cs[j].name != name
  {
    if cs == [] then None
    else if cs[0].name == name then Some(0)
    else match LookupIndex(cs[1..], name)
      case None => None
      case Some(k) => Some(k + 1)
  }

  /** Lookup by name reads only the names, so two child lists with the same names agree. */
  lemma LookupSameNames(cs: seq<Node>, ds: seq<Node>, name: string)
    requires |cs| == |ds|
    requires forall i :: 0 <= i < |cs| ==> cs[i].name == ds[i].name
    ensures LookupIndex(cs, name) == LookupIndex(ds, name)
  {
    match LookupIndex(cs, name)
    case None =>
    case Some(a) => LookupFirst(ds, a, name);
  }

  /** `getChild(index)`: the child at that position, or none when out of range. */
  function GetChildAt(n: Node, index: int): (r: Option<Node>)
    ensures r.Some? <==> 0 <= index < |n.children|
    ensures r.Some? ==> r.value == n.children[index]
  {
    if 0 <= index < |n.children| then Some(n.children[index]) else None
  }

  /** `getChild(name)`: the child with that name, or none when there is none. */
  function GetChildByName(n: Node, name: string): (r: Option<Node>)
    ensures r.Some? <==> HasChild(n, name)
    ensures r.Some? ==> r.value.name == name && r.value in n.children
  {
    match LookupIndex(n.children, name)
    case None => None
    case Some(i) => Some(n.children[i])
  }

  /** Children strictly ascending by name under `std::string::operator<`. */
  predicate StrictlySorted(cs: seq<Node>)
  {
    forall i, j :: 0 <= i < j < |cs| ==> LexLess(cs[i].name, cs[j].name)
  }

  /**
   * The node invariant, at every level: a file has no children and the
   * children of a directory are strictly ascending by name.
   */
  predicate Valid(n: Node)
  {
    && (n.kind == File ==> n.children == [])
    && StrictlySorted(n.children)
    && forall i :: 0 <= i < |n.children| ==> Valid(n.children[i])
  }

  /** Every name in the subtree, this node's included, is letters and digits only. */
  predicate NamesAlnum(n: Node)
  {
    && AllAlnum(n.name)
    && forall i :: 0 <= i < |n.children| ==> NamesAlnum(n.children[i])
  }

  /** Strictly ascending names are pairwise different. */
  lemma SortedUnique(cs: seq<Node>)
    requires StrictlySorted(cs)
    ensures forall i, j :: 0 <= i < |cs| && 0 <= j < |cs| && i != j ==> cs[i].name != cs[j].name
  {
    forall i, j | 0 <= i < |cs| && 0 <= j < |cs| && i != j
      ensures cs[i].name != cs[j].name
    {
      if i < j {
        LexLessIrreflexive(cs[i].name);
      } else {
        LexLessIrreflexive(cs[j].name);
      }
    }
  }

  /** `getNumChildren`: the number of children, zero for a valid file; exactly the indices below it reach a child. */
  function NumChildren(n: Node): (c: nat)
    ensures Valid(n) && IsFile(n) ==> c == 0
    ensures c == 0 <==> GetChildAt(n, 0).None?
    ensures forall i :: GetChildAt(n, i).Some? <==> 0 <= i < c
  {
    |n.children|
  }

  /** In a valid node the name lookup and the index lookup find the same child. */
  lemma GetChildAgree(n: Node, i: int)
    requires Valid(n)
    requires 0 <= i < |n.children|
    ensures GetChildByName(n, n.children[i].name) == GetChildAt(n, i)
  {
    SortedUnique(n.children);
  }

  /**
   * The insertion point of `addChild`: the position of the first child whose
   * name is not less than `name`.
   */
  function InsertionPoint(cs: seq<Node>, name: string): (pos: nat)
    ensures pos <= |cs|
    ensures forall i :: 0 <= i < pos ==> LexLess(cs[i].name, name)
    ensures pos < |cs| ==> !LexLess(cs[pos].name, name)
  {
    if cs == [] || !LexLess(cs[0].name, name) then 0
    else 1 + InsertionPoint(cs[1..], name)
  }

  /**
   * `addChild`: refuses a file parent and a duplicate name and then returns
   * the node unchanged; otherwise inserts `c` before the first child whose
   * name is not less than `c`'s.
   */
  function AddChild(n: Node, c: Node): (r: (Node, bool))
    ensures r.1 <==> n.kind == Directory && !HasChild(n, c.name)
    ensures !r.1 ==> r.0 == n
    ensures r.0.name == n.name && r.0.kind == n.kind
    ensures r.1 ==> |r.0.children| == |n.children| + 1
    ensures r.1 ==>
      var pos := InsertionPoint(n.children, c.name);
      r.0.children == n.children[..pos] + [c] + n.children[pos..]
  {
    if n.kind == Directory && LookupIndex(n.children, c.name).None? then
      var pos := InsertionPoint(n.children, c.name);
      assert n.children == n.children[..pos] + n.children[pos..];
      (n.(children := n.children[..pos] + [c] + n.children[pos..]), true)
    else
      (n, false)
  }

  /**
   * `removeChild`: on a directory with a child of that name, deletes the
   * first such child and keeps the others in order; otherwise no change.
   */
  function RemoveChild(n: Node, name: string): (r: (Node, bool))
    ensures r.1 <==> n.kind == Directory && HasChild(n, name)
    ensures !r.1 ==> r.0 == n
    ensures r.0.name == n.name && r.0.kind == n.kind
    ensures r.1 ==> |r.0.children| == |n.children| - 1
    ensures r.1 ==>
      var i := LookupIndex(n.children, name).value;
      n.children[i].name == name && r.0.children == n.children[..i] + n.children[i + 1..]
  {
    if n.kind == Directory then
      match LookupIndex(n.children, name)
      case Some(i) => (n.(children := n.children[..i] + n.children[i + 1..]), true)
      case None => (n, false)
    else
      (n, false)
  }

  /** A sorted insert keeps a strictly ascending child list strictly ascending. */
  lemma AddChildSorted(n: Node, c: Node)
    requires StrictlySorted(n.children)
    ensures StrictlySorted(AddChild(n, c).0.children)
  {
    var (m, ok) := AddChild(n, c);
    if ok {
      var cs := n.children;
      var pos := InsertionPoint(cs, c.name);
      var ds := m.children;
      forall i | 0 <= i < |cs| ensures cs[i].name != c.name {
        assert !HasChild(n, c.name);
      }
      forall i, j | 0 <= i < j < |ds| ensures LexLess(ds[i].name, ds[j].name) {
        if j < pos {
          assert ds[i] == cs[i] && ds[j] == cs[j];
        } else if j == pos {
          assert ds[i] == cs[i] && ds[j] == c;
        } else if i < pos {
          assert ds[i] == cs[i] && ds[j] == cs[j - 1];
          LexLessTotal(cs[pos].name, c.name);
          LexLessTransitive(cs[i].name, c.name, cs[pos].name);
          if pos < j - 1 {
            LexLessTransitive(cs[i].name, cs[pos].name, cs[j - 1].name);
          }
        } else if i == pos {
          assert ds[i] == c && ds[j] == cs[j - 1];
          LexLessTotal(cs[pos].name, c.name);
          if pos < j - 1 {
            LexLessTransitive(c.name, cs[pos].name, cs[j - 1].name);
          }
        } else {
          assert ds[i] == cs[i - 1] && ds[j] == cs[j - 1];
        }
      }
    }
  }

  /** After a successful insert, looking up the new name finds the inserted child. */
  lemma AddChildFinds(n: Node, c: Node)
    requires AddChild(n, c).1
    ensures GetChildByName(AddChild(n, c).0, c.name) == Some(c)
  {
    var m := AddChild(n, c).0;
    var pos := InsertionPoint(n.children, c.name);
    Inserted(n.children, pos, c);
    assert LookupIndex(m.children, c.name) == Some(pos);
  }

  /** Adding a child whose names are letters and digits keeps every name of the subtree so. */
  lemma AddChildAlnum(n: Node, c: Node)
    requires NamesAlnum(n) && NamesAlnum(c)
    ensures NamesAlnum(AddChild(n, c).0)
  {
    var (m, ok) := AddChild(n, c);
    if ok {
      var pos := InsertionPoint(n.children, c.name);
      Inserted(n.children, pos, c);
    }
  }

  /** Removing a child keeps every remaining name of the subtree letters and digits. */
  lemma RemoveChildAlnum(n: Node, name: string)
    requires NamesAlnum(n)
    ensures NamesAlnum(RemoveChild(n, name).0)
  {
    var (m, ok) := RemoveChild(n, name);
    if ok {
      Removed(n.children, LookupIndex(n.children, name).value);
    }
  }

  /** Adding a valid child to a valid node leaves a valid node: no file gains a child, no name repeats. */
  lemma AddChildValid(n: Node, c: Node)
    requires Valid(n) && Valid(c)
    ensures Valid(AddChild(n, c).0)
  {
    AddChildSorted(n, c);
    var (m, ok) := AddChild(n, c);
    if ok {
      var pos := InsertionPoint(n.children, c.name);
      Inserted(n.children, pos, c);
    }
  }

  /** Removing a child keeps a valid node valid, and afterwards no child has that name. */
  lemma RemoveChildValid(n: Node, name: string)
    requires Valid(n)
    ensures Valid(RemoveChild(n, name).0)
    ensures !HasChild(RemoveChild(n, name).0, name)
  {
    var (m, ok) := RemoveChild(n, name);
    if ok {
      var k := LookupIndex(n.children, name).value;
      var cs := n.children;
      Removed(cs, k);
      SortedUnique(cs);
      assert !HasChild(m, name) by {
        forall i | 0 <= i < |m.children| ensures m.children[i].name != name {
          assert cs[k].name == name;
        }
      }
    } else {
      assert !HasChild(n, name) || n.kind == File;
    }
  }

  /** An insert into a child list does not change which node a lookup of another name finds. */
  lemma LookupInsertOther(cs: seq<Node>, pos: nat, c: Node, name: string)
    requires pos <= |cs| && c.name != name
    ensures var ds := cs[..pos] + [c] + cs[pos..];
      && (LookupIndex(ds, name).None? <==> LookupIndex(cs, name).None?)
      && (LookupIndex(cs, name).Some? ==> ds[LookupIndex(ds, name).value] == cs[LookupIndex(cs, name).value])
  {
    var ds := cs[..pos] + [c] + cs[pos..];
    match LookupIndex(cs, name)
    case None => InsertedNames(cs, pos, c, name, |ds|);
    case Some(a) =>
      if a < pos {
        InsertedNames(cs, pos, c, name, a);
        assert ds[a] == cs[a];
        LookupFirst(ds, a, name);
      } else {
        InsertedNames(cs, pos, c, name, a + 1);
        assert ds[a + 1] == cs[a];
        LookupFirst(ds, a + 1, name);
      }
  }

  /** Deleting a child of another name does not change which node a lookup finds. */
  lemma LookupRemoveOther(cs: seq<Node>, k: nat, name: string)
    requires k < |cs| && cs[k].name != name
    ensures var ds := cs[..k] + cs[k + 1..];
      && (LookupIndex(ds, name).None? <==> LookupIndex(cs, name).None?)
      && (LookupIndex(cs, name).Some? ==> ds[LookupIndex(ds, name).value] == cs[LookupIndex(cs, name).value])
  {
    var ds := cs[..k] + cs[k + 1..];
    match LookupIndex(cs, name)
    case None => RemovedNames(cs, k, name, |ds|);
    case Some(a) =>
      if a < k {
        RemovedNames(cs, k, name, a);
        assert ds[a] == cs[a];
        LookupFirst(ds, a, name);
      } else {
        RemovedNames(cs, k, name, a - 1);
        assert ds[a - 1] == cs[a];
        LookupFirst(ds, a - 1, name);
      }
  }

  /** Before position `upto` of the list with `c` inserted, only names from before the matching position of `cs` occur, and `c`'s. */
  lemma InsertedNames(cs: seq<Node>, pos: nat, c: Node, name: string, upto: nat)
    requires pos <= |cs| && c.name != name && upto <= |cs| + 1
    requires forall j :: 0 <= j < |cs| && j < (if upto > pos then upto - 1 else upto) ==> cs[j].name != name
    ensures var ds := cs[..pos] + [c] + cs[pos..];
      forall j :: 0 <= j < upto ==> ds[j].name != name
  {
    var ds := cs[..pos] + [c] + cs[pos..];
    forall j | 0 <= j < upto ensures ds[j].name != name {
      if j < pos {
        assert ds[j] == cs[j];
      } else if j > pos {
        assert ds[j] == cs[j - 1];
      }
    }
  }

  /** Before position `upto` of the list with position `k` deleted, only names from before the matching position of `cs` occur. */
  lemma RemovedNames(cs: seq<Node>, k: nat, name: string, upto: nat)
    requires k < |cs| && upto <= |cs| - 1
    requires forall j :: 0 <= j < |cs| && j < (if upto > k then upto + 1 else upto) ==> cs[j].name != name
    ensures var ds := cs[..k] + cs[k + 1..];
      forall j :: 0 <= j < upto ==> ds[j].name != name
  {
    var ds := cs[..k] + cs[k + 1..];
    forall j | 0 <= j < upto ensures ds[j].name != name {
      if j < k {
        assert ds[j] == cs[j];
      } else {
        assert ds[j] == cs[j + 1];
      }
    }
  }

  /** The first position holding a name is what lookup finds. */
  lemma LookupFirst(cs: seq<Node>, i: nat, name: string)
    requires i < |cs| && cs[i].name == name
    requires forall j :: 0 <= j < i ==> cs[j].name != name
    ensures LookupIndex(cs, name) == Some(i)
  {
  }

  /** Looking up another name after an insert finds what it found before. */
  lemma AddChildLookupOther(n: Node, c: Node, name: string)
    requires name != c.name
    ensures GetChildByName(AddChild(n, c).0, name) == GetChildByName(n, name)
  {
    if AddChild(n, c).1 {
      LookupInsertOther(n.children, InsertionPoint(n.children, c.name), c, name);
    }
  }

  /** Looking up another name after a removal finds what it found before. */
  lemma RemoveChildLookupOther(n: Node, removed: string, name: string)
    requires name != removed
    ensures GetChildByName(RemoveChild(n, removed).0, name) == GetChildByName(n, name)
  {
    if RemoveChild(n, removed).1 {
      LookupRemoveOther(n.children, LookupIndex(n.children, removed).value, name);
    }
  }

  /** In a strictly ascending list, the insertion point of a deleted child's name is where it was. */
  lemma InsertionPointOfRemoved(cs: seq<Node>, k: nat)
    requires StrictlySorted(cs) && k < |cs|
    ensures InsertionPoint(cs[..k] + cs[k + 1..], cs[k].name) == k
  {
    var ds := cs[..k] + cs[k + 1..];
    var pos := InsertionPoint(ds, cs[k].name);
    if pos > k {
      assert ds[k] == cs[k + 1];
      LexLessAsymmetric(cs[k].name, cs[k + 1].name);
    }
  }

  /** Inserting a child and then removing it by name gives back the original node. */
  lemma AddThenRemove(n: Node, c: Node)
    requires AddChild(n, c).1
    ensures RemoveChild(AddChild(n, c).0, c.name) == (n, true)
  {
    var m := AddChild(n, c).0;
    var pos := InsertionPoint(n.children, c.name);
    Inserted(n.children, pos, c);
    assert LookupIndex(m.children, c.name) == Some(pos);
  }

  /** In a valid node, removing a child and adding it back gives back the original node. */
  lemma RemoveThenAdd(n: Node, name: string)
    requires Valid(n)
    requires RemoveChild(n, name).1
    ensures AddChild(RemoveChild(n, name).0, GetChildByName(n, name).value) == (n, true)
  {
    var m := RemoveChild(n, name).0;
    var cs := n.children;
    var k := LookupIndex(cs, name).value;
    RemoveChildValid(n, name);
    InsertionPointOfRemoved(cs, k);
    Removed(cs, k);
  }
}

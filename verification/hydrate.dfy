/**
 * The file constructor of `FilesystemTree`: each line of the import list is
 * decoded into a creation record and the records are replayed with
 * `create` on an empty tree. Reading the file and printing the error
 * messages are left to the caller; the lines come in as a sequence and the
 * rejected records go out as one.
 */
module Hydrate {
  import opened Wrappers
  import opened Seqs
  import opened Strings
  import opened FsNode
  import opened Paths
  import opened Traversal
  import opened FilesystemTree

  /** One creation: a name, a type code and the parent's path. */
  datatype Record = Record(name: string, pType: int, path: string)

  /** What one import line comes to. */
  datatype Decoded =
    | Skipped            // empty name or empty path: the line is ignored
    | Parsed(rec: Record)
    | Throws             // a lone marker: taking text from position 2 throws `out_of_range`

  /** Marks a directory line; the marker and the character after it are dropped. */
  const DIR_MARKER: char := '*'

  /** Separates the name field from the path field. */
  const FIELD_SEPARATOR: char := ' '

  /**
   * The fields of a line (the marker already dropped): the name is the text
   * before the first space, the path the text after it. Without a space
   * the path is the whole line, because the position `npos + 1` wraps to 0.
   */
  function Fields(command: string): (r: (string, string))
    ensures FIELD_SEPARATOR !in r.0
    ensures FIELD_SEPARATOR in command ==> command == r.0 + [FIELD_SEPARATOR] + r.1
    ensures FIELD_SEPARATOR !in command ==> r == (command, command)
  {
    var k := IndexOf(command, FIELD_SEPARATOR);
    if k == |command| then (command, command)
    else
      assert command == command[..k] + [FIELD_SEPARATOR] + command[k + 1..];
      (command[..k], command[k + 1..])
  }

  /**
   * One line of the constructor's loop: a line starting with the marker is
   * a directory and loses its first two characters, any other line is a
   * file; a record with an empty name or path is not created.
   */
  function DecodeLine(line: string): (d: Decoded)
    ensures d.Parsed? ==> (d.rec.pType == DIR_TYPE || d.rec.pType == FILE_TYPE)
    ensures d.Parsed? ==> d.rec.name != "" && d.rec.path != "" && FIELD_SEPARATOR !in d.rec.name
    ensures d.Throws? <==> line == [DIR_MARKER]
    ensures d.Parsed? && d.rec.pType == DIR_TYPE ==> |line| >= 2 && line[0] == DIR_MARKER
  {
    var dir := |line| > 0 && line[0] == DIR_MARKER;
    if dir && |line| < 2 then Throws
    else
      var command := if dir then line[2..] else line;
      var (name, path) := Fields(command);
      if name != "" && path != "" then Parsed(Record(name, if dir then DIR_TYPE else FILE_TYPE, path)) else Skipped
  }

  /** The line a record is written as: the marker and a space for a directory, then name, space, path. */
  function EncodeRecord(rec: Record): (line: string)
    requires rec.pType == DIR_TYPE || rec.pType == FILE_TYPE
  {
    (if rec.pType == DIR_TYPE then [DIR_MARKER, FIELD_SEPARATOR] else []) + rec.name + [FIELD_SEPARATOR] + rec.path
  }

  /** A record fit for a line: non-empty fields, no space in the name, and a file name not starting with the marker. */
  predicate Encodable(rec: Record)
  {
    && (rec.pType == DIR_TYPE || rec.pType == FILE_TYPE)
    && rec.name != [] && rec.path != []
    && FIELD_SEPARATOR !in rec.name
    && (rec.pType == FILE_TYPE ==> rec.name[0] != DIR_MARKER)
  }

  /** The fields of a name, a space and a path are that name and that path. */
  lemma FieldsJoin(name: string, path: string)
    requires FIELD_SEPARATOR !in name
    ensures Fields(name + [FIELD_SEPARATOR] + path) == (name, path)
  {
    var command := name + [FIELD_SEPARATOR] + path;
    assert command == name + ([FIELD_SEPARATOR] + path);
    assert IndexOf(name, FIELD_SEPARATOR) == |name|;
    IndexOfSkip(name, [FIELD_SEPARATOR] + path, FIELD_SEPARATOR);
    assert command[..|name|] == name;
    assert command[|name| + 1..] == path;
  }

  /** Decoding the line of a record gives the record back. */
  lemma DecodeEncode(rec: Record)
    requires Encodable(rec)
    ensures DecodeLine(EncodeRecord(rec)) == Parsed(rec)
  {
    if rec.pType == DIR_TYPE {
      DecodeDirectoryLine(rec.name, rec.path);
    } else {
      assert EncodeRecord(rec) == [] + rec.name + [FIELD_SEPARATOR] + rec.path;
      assert [] + rec.name == rec.name;
      DecodeFileLine(rec.name, rec.path);
    }
  }

  /** A decoded line encodes back to itself when it had a space and, for a directory, a space after the marker. */
  lemma EncodeDecode(line: string)
    requires DecodeLine(line).Parsed?
    requires var command := if line[0] == DIR_MARKER then line[2..] else line;
      FIELD_SEPARATOR in command
    requires line[0] == DIR_MARKER ==> line[1] == FIELD_SEPARATOR
    ensures EncodeRecord(DecodeLine(line).rec) == line
  {
    if line[0] == DIR_MARKER {
      EncodeDecodeDirectory(line);
    } else {
      var (name, path) := Fields(line);
      assert DecodeLine(line).rec == Record(name, FILE_TYPE, path);
      assert EncodeRecord(DecodeLine(line).rec) == [] + name + [FIELD_SEPARATOR] + path;
      assert [] + name == name;
    }
  }

  lemma EncodeDecodeDirectory(line: string)
    requires |line| >= 2 && line[0] == DIR_MARKER && line[1] == FIELD_SEPARATOR
    requires FIELD_SEPARATOR in line[2..]
    requires DecodeLine(line).Parsed?
    ensures EncodeRecord(DecodeLine(line).rec) == line
  {
    var command := line[2..];
    var (name, path) := Fields(command);
    var mark := [DIR_MARKER, FIELD_SEPARATOR];
    assert DecodeLine(line).rec == Record(name, DIR_TYPE, path);
    assert line == mark + command by {
      assert line[..2] == mark;
    }
    ConcatAssoc(mark, name, [FIELD_SEPARATOR]);
    ConcatAssoc(mark, name + [FIELD_SEPARATOR], path);
  }

  // ---------------------------------------------------------------- replay

  /** The outcome of loading: the tree and the records rejected with an error, or the exception. */
  datatype Outcome = Built(tree: FileSystem, rejected: seq<Record>) | Aborted

  /**
   * One turn of the constructor's loop: a skipped line does nothing, a
   * record is created (and put on the error list if the create fails), a
   * throwing line ends the construction.
   */
  function Step(t: FileSystem, line: string): (o: Outcome)
    ensures o.Aborted? <==> line == [DIR_MARKER]
    ensures o.Built? ==> |o.rejected| <= 1
    ensures o.Built? && o.rejected != [] ==> o.tree == t
  {
    match DecodeLine(line)
    case Throws => Aborted
    case Skipped => Built(t, [])
    case Parsed(rec) =>
      var r := CreateChecked(t, rec.name, rec.pType, rec.path);
      Built(r.0, if r.1 then [] else [rec])
  }

  /** The constructor's loop from tree `t` over the lines, collecting the rejected records. */
  function Replay(t: FileSystem, lines: seq<string>): (o: Outcome)
    ensures o.Built? ==> |o.rejected| <= |lines|
    decreases |lines|
  {
    if lines == [] then Built(t, [])
    else
      match Step(t, lines[0])
      case Aborted => Aborted
      case Built(t1, r1) =>
        match Replay(t1, lines[1..])
        case Aborted => Aborted
        case Built(t2, r2) => Built(t2, r1 + r2)
  }

  /** `FilesystemTree(fileName)`: the replay of the file's lines on the default tree. */
  function Load(lines: seq<string>): (o: Outcome)
    ensures o.Aborted? <==> exists i :: 0 <= i < |lines| && lines[i] == [DIR_MARKER]
    ensures o.Built? ==> TreeInv(o.tree) && |o.rejected| <= |lines|
  {
    ReplayAborts(EmptyTree(), lines);
    ReplayInv(EmptyTree(), lines);
    Replay(EmptyTree(), lines)
  }

  /** A load is aborted exactly when one of its lines is a lone marker. */
  lemma {:induction false} ReplayAborts(t: FileSystem, lines: seq<string>)
    ensures Replay(t, lines).Aborted? <==> exists i :: 0 <= i < |lines| && lines[i] == [DIR_MARKER]
    decreases |lines|
  {
    if lines != [] {
      var rest := lines[1..];
      assert forall i :: 0 <= i < |rest| ==> rest[i] == lines[i + 1];
      match Step(t, lines[0])
      case Aborted =>
      case Built(t1, r1) => ReplayAborts(t1, rest);
    }
  }

  /** Replaying two lists one after the other is replaying them joined. */
  lemma {:induction false} ReplayAppend(t: FileSystem, a: seq<string>, b: seq<string>)
    ensures Replay(t, a + b) ==
      match Replay(t, a)
      case Aborted => Aborted
      case Built(t1, r1) =>
        match Replay(t1, b)
        case Aborted => Aborted
        case Built(t2, r2) => Built(t2, r1 + r2)
    decreases |a|
  {
    if a == [] {
      assert a + b == b;
      match Replay(t, b)
      case Aborted =>
      case Built(t2, r2) => assert [] + r2 == r2;
    } else {
      assert (a + b)[0] == a[0];
      assert (a + b)[1..] == a[1..] + b;
      match Step(t, a[0])
      case Aborted =>
      case Built(t1, r1) =>
        ReplayAppend(t1, a[1..], b);
        match Replay(t1, a[1..])
        case Aborted =>
        case Built(t2, r2) =>
          match Replay(t2, b)
          case Aborted =>
          case Built(t3, r3) => assert r1 + (r2 + r3) == (r1 + r2) + r3;
    }
  }

  /** Every tree built by a replay from a tree keeping the invariant keeps it. */
  lemma {:induction false} ReplayInv(t: FileSystem, lines: seq<string>)
    requires TreeInv(t)
    ensures Replay(t, lines).Built? ==> TreeInv(Replay(t, lines).tree)
    decreases |lines|
  {
    if lines != [] {
      match DecodeLine(lines[0])
      case Throws =>
      case Skipped => ReplayInv(t, lines[1..]);
      case Parsed(rec) =>
        CreateCheckedInv(t, rec.name, rec.pType, rec.path);
        ReplayInv(Step(t, lines[0]).tree, lines[1..]);
    }
  }

  /** A directory line of the example form decodes to its record. */
  lemma DecodeDirectoryLine(name: string, path: string)
    requires name != [] && path != [] && FIELD_SEPARATOR !in name
    ensures DecodeLine([DIR_MARKER, FIELD_SEPARATOR] + name + [FIELD_SEPARATOR] + path) == Parsed(Record(name, DIR_TYPE, path))
  {
    var command := name + [FIELD_SEPARATOR] + path;
    var mark := [DIR_MARKER, FIELD_SEPARATOR];
    ConcatAssoc(mark, name + [FIELD_SEPARATOR], path);
    ConcatAssoc(mark, name, [FIELD_SEPARATOR]);
    assert mark + name + [FIELD_SEPARATOR] + path == mark + command;
    SliceConcat(mark, command, 2);
    assert mark[2..] == [];
    FieldsJoin(name, path);
  }

  /** A file line of the example form decodes to its record. */
  lemma DecodeFileLine(name: string, path: string)
    requires name != [] && path != [] && FIELD_SEPARATOR !in name && name[0] != DIR_MARKER
    ensures DecodeLine(name + [FIELD_SEPARATOR] + path) == Parsed(Record(name, FILE_TYPE, path))
  {
    FieldsJoin(name, path);
    assert (name + [FIELD_SEPARATOR] + path)[0] == name[0];
  }

  /** A directory line written out as a literal decodes like its parts. */
  lemma DirectoryLiteral(line: string, name: string, path: string)
    requires name != [] && path != [] && FIELD_SEPARATOR !in name
    requires |line| == 3 + |name| + |path| && line[..2] == [DIR_MARKER, FIELD_SEPARATOR]
    requires line[2..2 + |name|] == name && line[2 + |name|] == FIELD_SEPARATOR && line[3 + |name|..] == path
    ensures DecodeLine(line) == Parsed(Record(name, DIR_TYPE, path))
  {
    assert line == [DIR_MARKER, FIELD_SEPARATOR] + name + [FIELD_SEPARATOR] + path;
    DecodeDirectoryLine(name, path);
  }

  /** A file line written out as a literal decodes like its parts. */
  lemma FileLiteral(line: string, name: string, path: string)
    requires name != [] && path != [] && FIELD_SEPARATOR !in name && name[0] != DIR_MARKER
    requires |line| == 1 + |name| + |path|
    requires line[..|name|] == name && line[|name|] == FIELD_SEPARATOR && line[1 + |name|..] == path
    ensures DecodeLine(line) == Parsed(Record(name, FILE_TYPE, path))
  {
    assert line == name + [FIELD_SEPARATOR] + path;
    DecodeFileLine(name, path);
  }

  lemma ExampleDecodeFirst()
    ensures DecodeLine("* d1 C:") == Parsed(Record("d1", DIR_TYPE, "C:"))
  {
    DirectoryLiteral("* d1 C:", "d1", "C:");
  }

  lemma ExampleDecodeSecond()
    ensures DecodeLine("* d2 C:/d1") == Parsed(Record("d2", DIR_TYPE, "C:/d1"))
  {
    DirectoryLiteral("* d2 C:/d1", "d2", "C:/d1");
  }

  lemma ExampleDecodeThird()
    ensures DecodeLine("f1 C:/d1") == Parsed(Record("f1", FILE_TYPE, "C:/d1"))
  {
    FileLiteral("f1 C:/d1", "f1", "C:/d1");
  }

  lemma ExampleParent()
    ensures ParsePath("C:/d1") == Some(["d1"])
  {
    assert "C:" + [SEPARATING_CHAR] + "d1" == "C:/d1";
    ParsePathSkipsRoot("C:", "d1");
  }

  /** A checked create under a resolved directory lacking a plain name adds the new node there. */
  lemma CreateCheckedUnder(t: FileSystem, pName: string, pType: int, parentPath: string, segs: seq<string>, d: Node)
    requires pType == DIR_TYPE || pType == FILE_TYPE
    requires ParsePath(parentPath) == Some(segs) && AtPath(t.root, segs) == Some(d)
    requires d.kind == Directory && AllAlnum(pName) && pName != d.name && !HasChild(d, pName)
    ensures CreateChecked(t, pName, pType, parentPath)
      == (FileSystem(ReplaceAt(t.root, segs, AddChild(d, NewNode(pName, pType)).0)), true)
  {
    AlnumNotRoot(pName);
    assert NewNode(pName, pType).name == pName;
  }

  /** The only child of a node is found by its name, and exchanging it replaces the child list. */
  lemma OnlyChild(n: Node, c: Node, m: Node)
    requires n.children == [c] && m.name == c.name
    ensures AtPath(n, [c.name]) == Some(c)
    ensures ReplaceAt(n, [c.name], m) == n.(children := [m])
  {
    assert LookupIndex(n.children, c.name) == Some(0);
    assert [c.name][1..] == [];
  }

  /** A child added to an empty directory becomes its only child. */
  lemma AddToEmpty(d: Node, c: Node)
    requires d.kind == Directory && d.children == []
    ensures AddChild(d, c) == (d.(children := [c]), true)
  {
    assert InsertionPoint(d.children, c.name) == 0;
    assert d.children[..0] + [c] + d.children[0..] == [c];
  }

  /** A child whose name sorts after the only child goes after it. */
  lemma AddAfterOnly(d: Node, a: Node, c: Node)
    requires d.kind == Directory && d.children == [a] && LexLess(a.name, c.name)
    ensures AddChild(d, c) == (d.(children := [a, c]), true)
  {
    LexLessIrreflexive(a.name);
    assert !HasChild(d, c.name);
    assert InsertionPoint(d.children, c.name) == 1;
    assert d.children[..1] + [c] + d.children[1..] == [a, c];
  }

  /** A checked create under the only child of the root adds the new node inside that child. */
  lemma CreateUnderOnlyChild(t: FileSystem, d: Node, c: Node, m: Node, pType: int, path: string)
    requires pType == DIR_TYPE || pType == FILE_TYPE
    requires t.root.children == [d] && d.kind == Directory
    requires ParsePath(path) == Some([d.name])
    requires c == NewNode(c.name, pType) && c.name != d.name
    requires AddChild(d, c) == (m, true)
    ensures CreateChecked(t, c.name, pType, path) == (FileSystem(t.root.(children := [m])), true)
  {
    OnlyChild(t.root, d, m);
    CreateCheckedUnder(t, c.name, pType, path, [d.name], d);
  }

  /** A name of letters and digits gives a node of exactly that name. */
  lemma PlainNode(name: string, pType: int, kind: Kind)
    requires pType == DIR_TYPE || pType == FILE_TYPE
    requires AllAlnum(name) && kind == KindOf(pType)
    ensures NewNode(name, pType) == Node(name, kind, [])
  {
  }

  /** The names of the three-line example are plain, so they are kept as given. */
  lemma ExampleNames()
    ensures NewNode("d1", DIR_TYPE) == Node("d1", Directory, [])
    ensures NewNode("d2", DIR_TYPE) == Node("d2", Directory, []) && "d2" != "d1"
    ensures NewNode("f1", FILE_TYPE) == Node("f1", File, []) && "f1" != "d1" && LexLess("d2", "f1")
  {
    assert AllAlnum("d1") && AllAlnum("d2") && AllAlnum("f1");
    PlainNode("d1", DIR_TYPE, Directory);
    PlainNode("d2", DIR_TYPE, Directory);
    PlainNode("f1", FILE_TYPE, File);
  }

  lemma ExampleFirst()
    ensures CreateChecked(EmptyTree(), "d1", DIR_TYPE, "C:") == (ExampleTree(1), true)
  {
    var t := EmptyTree();
    ExampleNames();
    CreateCheckedUnder(t, "d1", DIR_TYPE, "C:", [], t.root);
    AddToEmpty(t.root, Node("d1", Directory, []));
  }

  lemma ExampleSecond()
    ensures CreateChecked(ExampleTree(1), "d2", DIR_TYPE, "C:/d1") == (ExampleTree(2), true)
  {
    var d1 := Node("d1", Directory, []);
    var c := Node("d2", Directory, []);
    ExampleNames();
    ExampleParent();
    AddToEmpty(d1, c);
    CreateUnderOnlyChild(ExampleTree(1), d1, c, Node("d1", Directory, [c]), DIR_TYPE, "C:/d1");
  }

  /** A checked create of a name sorting after the only grandchild puts the new node second. */
  lemma CreateAfterGrandchild(t: FileSystem, d: Node, a: Node, c: Node, pType: int, path: string)
    requires pType == DIR_TYPE || pType == FILE_TYPE
    requires t.root.children == [d] && d.kind == Directory && d.children == [a]
    requires ParsePath(path) == Some([d.name])
    requires c == NewNode(c.name, pType) && c.name != d.name && LexLess(a.name, c.name)
    ensures CreateChecked(t, c.name, pType, path) == (FileSystem(t.root.(children := [d.(children := [a, c])])), true)
  {
    AddAfterOnly(d, a, c);
    CreateUnderOnlyChild(t, d, c, d.(children := [a, c]), pType, path);
  }

  /** The third example tree is the second with the file added to `d1`. */
  lemma ExampleTreeGrows(d1: Node, d2: Node, f1: Node)
    requires d2 == Node("d2", Directory, []) && d1 == Node("d1", Directory, [d2]) && f1 == Node("f1", File, [])
    ensures ExampleTree(2).root.children == [d1]
    ensures ExampleTree(3) == FileSystem(ExampleTree(2).root.(children := [d1.(children := [d2, f1])]))
  {
  }

  lemma ExampleThird()
    ensures CreateChecked(ExampleTree(2), "f1", FILE_TYPE, "C:/d1") == (ExampleTree(3), true)
  {
    var d2 := Node("d2", Directory, []);
    var d1 := Node("d1", Directory, [d2]);
    var f1 := Node("f1", File, []);
    ExampleNames();
    ExampleParent();
    ExampleTreeGrows(d1, d2, f1);
    CreateAfterGrandchild(ExampleTree(2), d1, d2, f1, FILE_TYPE, "C:/d1");
  }

  /** The first line of the three-line example goes in without a rejection. */
  lemma StepFirst()
    ensures Step(EmptyTree(), "* d1 C:") == Built(ExampleTree(1), [])
  {
    ExampleDecodeFirst();
    ExampleFirst();
  }

  /** So does the second. */
  lemma StepSecond()
    ensures Step(ExampleTree(1), "* d2 C:/d1") == Built(ExampleTree(2), [])
  {
    ExampleDecodeSecond();
    ExampleSecond();
  }

  /** And the third. */
  lemma StepThird()
    ensures Step(ExampleTree(2), "f1 C:/d1") == Built(ExampleTree(3), [])
  {
    ExampleDecodeThird();
    ExampleThird();
  }

  /** The tree after the first `k` lines of the three-line example. */
  function ExampleTree(k: nat): FileSystem
  {
    if k == 1 then FileSystem(Node(ROOT_NAME, Directory, [Node("d1", Directory, [])]))
    else if k == 2 then FileSystem(Node(ROOT_NAME, Directory, [Node("d1", Directory, [Node("d2", Directory, [])])]))
    else FileSystem(Node(ROOT_NAME, Directory, [Node("d1", Directory, [Node("d2", Directory, []), Node("f1", File, [])])]))
  }

  lemma ExampleLastOne()
    ensures Replay(ExampleTree(2), ["f1 C:/d1"]) == Built(ExampleTree(3), [])
  {
    StepThird();
    assert ["f1 C:/d1"][1..] == [];
  }

  lemma ExampleLastTwo()
    ensures Replay(ExampleTree(1), ["* d2 C:/d1", "f1 C:/d1"]) == Built(ExampleTree(3), [])
  {
    StepSecond();
    ExampleLastOne();
    var two := ["* d2 C:/d1", "f1 C:/d1"];
    assert two[0] == "* d2 C:/d1";
    assert two[1..] == ["f1 C:/d1"];
  }

  /** The three-line example: two nested directories and a file in the first one, nothing rejected. */
  lemma LoadExample()
    ensures var o := Load(["* d1 C:", "* d2 C:/d1", "f1 C:/d1"]);
      && o.Built? && o.rejected == []
      && o.tree.root == Node(ROOT_NAME, Directory, [
           Node("d1", Directory, [Node("d2", Directory, []), Node("f1", File, [])])])
  {
    var lines := ["* d1 C:", "* d2 C:/d1", "f1 C:/d1"];
    StepFirst();
    ExampleLastTwo();
    assert lines[1..] == ["* d2 C:/d1", "f1 C:/d1"];
  }

  /** The loaded example counts two directories and one file. */
  lemma ExampleStats()
    ensures DisplayStats(ExampleTree(3)) == (2, 1)
  {
    var f1 := Node("f1", File, []);
    var d2 := Node("d2", Directory, []);
    var d1 := Node("d1", Directory, [d2, f1]);
    assert Stats(f1) == (0, 1);
    assert Stats(d2) == (1, 0);
    assert StatsFrom(d1, 2) == (0, 0);
    assert StatsFrom(d1, 1) == (0, 1);
    assert StatsFrom(d1, 0) == (1, 1);
    assert Stats(d1) == (2, 1);
    assert StatsFrom(ExampleTree(3).root, 1) == (0, 0);
    assert StatsFrom(ExampleTree(3).root, 0) == (2, 1);
  }
}

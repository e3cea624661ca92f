# Filesystem simulator — a Dafny model

This project models the in-memory filesystem tree of the filesystem simulator:
- `FSNode`: a named file or directory whose children are kept sorted by name.
- `FilesystemTree`: a root directory `C:` and the operations on it. Each operation is addressed by a path string such as `C:/docs/notes`:
  - create, remove, move, copy, find
  - format, copy-assignment, stats, tree display
  - loading from an import list

The source links nodes by shared pointers. The model treats the tree as a value: a `Node(name, kind, children)`.
- Each path string is parsed the way `pathToPointer` parses it, into a list of names (`Paths.ParsePath`).
- The list is then walked child by child (`Paths.AtPath`).
- A mutation rebuilds the tree with the changed node exchanged at that path (`Paths.ReplaceAt`).

The only place where the pointer structure matters is moving a directory into its own subtree. There the value model gives the same visible tree as the source, and `FilesystemTree.MoveIntoItself` proves what that tree is.

Modules, in dependency order:

| file | module | contents |
|---|---|---|
| `wrappers.dfy` | `Wrappers` | `Option` |
| `seqs.dfy` | `Seqs` | slicing and concatenation facts the proofs share |
| `strings.dfy` | `Strings` | the name filter of `setName`, `std::string` ordering, `find` on one character |
| `fs_node.dfy` | `FsNode` | `FSNode`: type codes, constructor, child lookup, sorted `addChild`, `removeChild` |
| `paths.dfy` | `Paths` | `pathToPointer`'s parse, and path-addressed reading and rebuilding of a node |
| `traversal.dfy` | `Traversal` | `copySubTree`, `recursiveStats`, `recursiveDisplay`, the structural `find` walk, and a pre-order outline they are checked against |
| `fs_tree.dfy` | `FilesystemTree` | the public operations of `FilesystemTree` |
| `hydrate.dfy` | `Hydrate` | the file constructor: line decoding and replay of the creation records |

Where the code and its own documentation disagree, the model follows the code:
- `getType`'s header comment swaps the two codes. The model returns `DIR_TYPE` for a directory, as the code does.
- The comment on line 26 of `create` says it returns true when the node was added. The code also returns true when `addChild` refused the node, for a duplicate name for example; see Findings.
- The format of the import file is taken from the code's substring arithmetic:
  - the name field is the text before the first single space;
  - the path is the text after it;
  - the marker is dropped with the character that follows it.

`create` dereferences the parent pointer without a check, so an unresolvable parent path is undefined behaviour. Its header asks only that the path begin with `C:`. `FilesystemTree.Create` therefore requires the parent to resolve. The corrected `FilesystemTree.CreateChecked` fails instead.

`find` re-resolves the path of every child directory it recurses into. For a directory named "" that path ends in a separator, and `C:/d`, `C:/d/` and `C:/d//` all name `d`. So the source's recursion runs up to three calls per level of the tree, and it always ends. The model gives the search fuel beyond that bound and proves that more fuel changes nothing.

## Model

| member | source | states |
|---|---|---|
| Strings.Sanitize | FSNode.cpp:16-30 | the stored name contains only letters and digits; it equals the input exactly when the input had nothing else |
| Strings.SetName | FSNode.cpp:16-30 | the character loop of `setName` builds exactly the filtered name |
| Strings.SanitizeConcat | FSNode.cpp:21-27 | filtering decides each character on its own, so it distributes over concatenation |
| Strings.SanitizeIdempotent | FSNode.cpp:16-30 | filtering a filtered name changes nothing |
| Strings.LexLessIrreflexive | FSNode.cpp:55-59 | the name order used for sorting children is irreflexive |
| Strings.LexLessAsymmetric | FSNode.cpp:55-59 | the name order is asymmetric |
| Strings.LexLessTransitive | FSNode.cpp:55-59 | the name order is transitive |
| Strings.LexLessTotal | FSNode.cpp:55-59 | any two different names are ordered one way or the other, so the insertion position is well defined |
| Strings.IndexOf | FilesystemTree.cpp:327-333 | `find` on one character gives the first occurrence, or the length when there is none |
| FsNode.KindOf | FSNode.h:8-9 | type code 1 is a directory and 0 is a file, both ways |
| FsNode.GetType | FSNode.cpp:5-8 | a directory reports `DIR_TYPE` and a file `FILE_TYPE`, both ways |
| FsNode.TypeCodeRoundTrip | FSNode.cpp:5-13 | a type code turned into a kind and read back with `getType` is the same code |
| FsNode.IsFile | FSNode.cpp:38-41 | a node is a file when its type code is `FILE_TYPE`; with `FsNode.FileXorDirectory`, exactly when it is not a directory |
| FsNode.IsDirectory | FSNode.cpp:43-46 | a node is a directory when its type code is `DIR_TYPE`; `FsNode.TypeCodeRoundTrip` ties the code to the kind |
| FsNode.FileXorDirectory | FSNode.cpp:38-46 | every node is exactly one of file and directory |
| FsNode.NewNode | FSNode.cpp:10-13 | a new node has the filtered name, reports the requested type and has no children |
| FsNode.LookupIndex | FSNode.cpp:82-92 | lookup by name finds the first child carrying the name, and finds none exactly when no child does |
| FsNode.GetChildAt | FSNode.cpp:71-80 | lookup by index succeeds exactly for indexes 0 to count-1 and gives that child |
| FsNode.GetChildByName | FSNode.cpp:82-92 | lookup by name succeeds exactly when some child has the name, and gives a child with that name |
| FsNode.NumChildren | FSNode.cpp:94-97 | a valid file has no children; exactly the indexes below the count reach a child |
| FsNode.GetChildAgree | FSNode.cpp:71-92 | in a valid node, looking up child i by its name gives child i |
| FsNode.SortedUnique | FSNode.cpp:48-68 | strictly ascending children have pairwise different names |
| FsNode.InsertionPoint | FSNode.cpp:55-59 | the insertion position has only smaller names before it and a name that is not smaller at it |
| FsNode.AddChild | FSNode.cpp:48-68 | the add succeeds exactly for a directory lacking the name; it inserts at the insertion position and keeps everything else |
| FsNode.RemoveChild | FSNode.cpp:99-114 | the remove succeeds exactly for a directory holding the name; it deletes the first such child and keeps the order of the rest |
| FsNode.AddChildSorted | FSNode.cpp:48-68 | adding keeps the children strictly ascending |
| FsNode.AddChildValid | FSNode.cpp:48-68 | adding a valid node to a valid node gives a valid node |
| FsNode.RemoveChildValid | FSNode.cpp:99-114 | removing keeps a node valid, and afterwards no child has the removed name |
| FsNode.AddChildFinds | FSNode.cpp:48-92 | after a successful add, looking up the name finds the added node |
| FsNode.AddChildAlnum | FSNode.cpp:48-68 | adding a node with letter-and-digit names keeps all names letters and digits |
| FsNode.RemoveChildAlnum | FSNode.cpp:99-114 | removing keeps all names letters and digits |
| FsNode.AddChildLookupOther | FSNode.cpp:48-92 | adding does not change what any other name finds |
| FsNode.RemoveChildLookupOther | FSNode.cpp:82-114 | removing does not change what any other name finds |
| FsNode.AddThenRemove | FSNode.cpp:48-114 | adding a child and removing it by name gives back the original node |
| FsNode.RemoveThenAdd | FSNode.cpp:48-114 | in a valid node, removing a child and adding it back gives back the original node |
| Paths.Remainder | FilesystemTree.cpp:321-328 | after a separator is appended if missing and everything up to the first separator is dropped, the rest is empty or ends in a separator |
| Paths.Segments | FilesystemTree.cpp:330-335 | every name the walk loop looks up is free of separators |
| Paths.ParsePath | FilesystemTree.cpp:303-320 | a path names something exactly when it starts with `C:`; its segments contain no separator |
| Paths.ParsePathAppend | FilesystemTree.cpp:321-335 | appending a separator and a name to a path that does not end in a separator adds exactly that name to the walk |
| Paths.ParseJoin | FilesystemTree.cpp:303-335 | the canonical path of a list of names parses back to that list |
| Paths.ParsePathTrailing | FilesystemTree.cpp:321-325 | a trailing separator does not change the walk |
| Paths.RemainderConcat | FilesystemTree.cpp:321-328 | after a path that already ends in a separator, appended text closed by a separator is walked as it stands |
| Paths.SegmentsConcat | FilesystemTree.cpp:330-335 | walking two separator-closed texts in turn gives the first's segments, one empty segment if the first ends in a doubled separator, then the second's |
| Paths.SlackAfterName | FilesystemTree.cpp:321-335 | a separator after a name keeps the walk and uses up one unit of slack |
| Paths.SlackAfterSeparator | FilesystemTree.cpp:321-335 | a second separator keeps the walk only where the remainder ended in a single separator, using up the last slack; otherwise the walk gains an empty segment |
| Paths.NameAfterSeparator | FilesystemTree.cpp:321-335 | a name after a trailing separator adds an empty segment, or two, and then the name |
| Paths.ChildPathSegments | FilesystemTree.cpp:163-169 | the child path `find` builds either extends the parent's walk or keeps it and uses up slack |
| Paths.RootSegmentPrefixOnly | FilesystemTree.cpp:316-328 | only the first two characters are checked against `C:`: `C:abc` names the root |
| Paths.RootSegmentSkipped | FilesystemTree.cpp:327-328 | text between `C:` and the first separator is ignored: `C:x/a` walks like `C:/a` |
| Paths.MalformedPaths | FilesystemTree.cpp:316-319 | the empty path, `C` and `D:/a` name nothing |
| Paths.AtPath | FilesystemTree.cpp:330-337 | a path that resolves ends at a node named after its last segment |
| Paths.AtPathConcat | FilesystemTree.cpp:330-337 | walking a path in two pieces is walking it in one |
| Paths.ReplaceAt | FilesystemTree.cpp:303-338 | a rebuilt tree keeps the root's name and kind, and an unresolved path leaves it unchanged |
| Paths.ReplaceAtResolves | FilesystemTree.cpp:303-338 | after the exchange the path, and everything below it, leads into the new node |
| Paths.ReplaceAtFrame | FilesystemTree.cpp:303-338 | paths that split from the exchanged path still lead where they did |
| Paths.ReplaceAtSelf | FilesystemTree.cpp:303-338 | putting back the node already there changes nothing |
| Paths.ReplaceAtValid | FSNode.cpp:48-68 | exchanging a node for a valid one with the same name keeps the tree valid |
| Traversal.CopySubTree | FilesystemTree.cpp:85-105 | the copy has the filtered name and the same kind |
| Traversal.CopySubTreeValid | FilesystemTree.cpp:85-105 | whatever the input, the copy is valid and all its names are letters and digits |
| Traversal.CopySubTreeIdentity | FilesystemTree.cpp:85-105 | the copy of a valid subtree with plain names below its top equals the subtree, except that the top's name is filtered |
| Traversal.Stats | FilesystemTree.cpp:206-235 | (directories, files) of the subtree; `Traversal.StatsCountsOutline` states what it counts |
| Traversal.StatsFrom | FilesystemTree.cpp:224-229 | the child loop's sums; `Traversal.StatsFromCounts` states what they count |
| Traversal.StatsFromCounts | FilesystemTree.cpp:224-229 | the loop from child i on counts the directories not named `C:` and the files of the outline of children i onward |
| Traversal.StatsCountsOutline | FilesystemTree.cpp:206-235 | the stats count every directory not named `C:` and every file, each exactly once, in pre-order |
| Traversal.Display | FilesystemTree.cpp:345-360 | the listing starts with the node's own line, its label after the given indentation; `Traversal.DisplayIsRenderedOutline` states the rest |
| Traversal.DisplayFrom | FilesystemTree.cpp:354-358 | the child loop's lines; `Traversal.DisplayFromRendered` states what they are |
| Traversal.DisplayFromRendered | FilesystemTree.cpp:354-358 | the loop from child i on lists the outline of children i onward, one indent deeper |
| Traversal.DisplayIsRenderedOutline | FilesystemTree.cpp:345-360 | the listing is one line per node in pre-order: the prefix, one indent per level of depth, and the name, bracketed for a directory |
| Traversal.FindCountsOutline | FilesystemTree.cpp:145-176 | the structural search writes one line per node strictly below the start that carries the name |
| Traversal.FindLinesResolve | FilesystemTree.cpp:145-176 | every line the search writes is a path that resolves to a node carrying the name |
| Traversal.PathToNode | FilesystemTree.cpp:303-338 | `C:` resolves to the root, and a path that does not start with `C:` resolves to nothing |
| FilesystemTree.EmptyTree | FilesystemTree.cpp:246-250 | the default tree is a childless directory named `C:` and keeps the tree invariant |
| FilesystemTree.Create | FilesystemTree.cpp:11-31 | the create reports success exactly when the name is neither `C:` nor the parent's own name; otherwise the tree is unchanged |
| FilesystemTree.CreateAdds | FilesystemTree.cpp:11-31 | a create into a directory lacking the filtered name makes `parentPath/name` resolve to a new node of the requested type |
| FilesystemTree.CreateFrame | FilesystemTree.cpp:11-31 | a create changes nothing on paths that split from the new node's path |
| FilesystemTree.CreateInv | FilesystemTree.cpp:11-31 | create keeps the tree invariant |
| FilesystemTree.RemoveUndoesCreate | FilesystemTree.cpp:11-48 | removing the node a create added gives back the original tree |
| FilesystemTree.CreateDuplicateReportsSuccess | FilesystemTree.cpp:21-30 | a create of a name the parent already holds changes nothing yet reports success |
| FilesystemTree.CreateChecked | FilesystemTree.cpp:11-31 | the corrected create reports success exactly when the tree changed |
| FilesystemTree.CreateCheckedReports | FilesystemTree.cpp:11-31 | the corrected create fails exactly on an unresolved parent, `C:`, the parent's name, a file parent or a duplicate; elsewhere it leaves the tree the original leaves |
| FilesystemTree.Remove | FilesystemTree.cpp:33-48 | the remove succeeds exactly when the name is not `C:`, the parent resolves to a directory and the directory holds the name; otherwise nothing changes |
| FilesystemTree.RemoveEffect | FilesystemTree.cpp:33-48 | after a remove nothing of that name is left under the parent, and paths that split from the removed node's path are untouched |
| FilesystemTree.RemoveInv | FilesystemTree.cpp:33-48 | remove keeps the tree invariant |
| FilesystemTree.Move | FilesystemTree.cpp:51-83 | the move succeeds exactly when the name is not `C:`, both paths resolve, the source holds the name and the destination is a directory lacking it; otherwise nothing changes |
| FilesystemTree.MoveCarries | FilesystemTree.cpp:51-83 | unless the destination lies inside the moved node, afterwards the destination holds the node the source held, and the source no longer holds it |
| FilesystemTree.MoveIntoItself | FilesystemTree.cpp:63-80 | moving a directory into its own subtree leaves the tree a remove of that directory leaves |
| FilesystemTree.MoveInv | FilesystemTree.cpp:51-83 | move keeps the tree invariant |
| FilesystemTree.Copy | FilesystemTree.cpp:107-136 | the copy succeeds exactly when the name is not `C:`, both paths resolve, the source holds the name and the destination is a directory lacking the filtered name; otherwise nothing changes |
| FilesystemTree.CopyEffect | FilesystemTree.cpp:107-136 | afterwards the destination holds a subtree equal to the source's, even when the destination lies inside it, and paths that split from the new node's path are untouched |
| FilesystemTree.RemoveUndoesCopy | FilesystemTree.cpp:33-136 | removing the copy from the destination gives back the original tree |
| FilesystemTree.CopyInv | FilesystemTree.cpp:107-136 | copy keeps the tree invariant |
| FilesystemTree.Format | FilesystemTree.cpp:178-190 | format reports success and leaves the root with its name and kind but no children, so the stats are (0, 0) for a directory root named `C:`, (1, 0) for a directory root with any other name (such as the `C` that assignment leaves), and (0, 1) for a childless file root |
| FilesystemTree.Assign | FilesystemTree.cpp:192-204 | the assigned tree is valid and all its names are letters and digits |
| FilesystemTree.AssignCopiesContent | FilesystemTree.cpp:192-199 | the assigned tree has the other tree's content, and every non-empty path resolves in it as in the other tree; only the root's name is filtered |
| FilesystemTree.AssignDefaultTree | FilesystemTree.cpp:192-199 | the copy of the default tree is a childless directory named `C` |
| FilesystemTree.AssignRenamesRoot | FilesystemTree.cpp:192-199 | copying the default tree gives a root named `C`, whose stats are (1, 0) instead of (0, 0) |
| FilesystemTree.AssignKeepingRoot | FilesystemTree.cpp:192-199 | the corrected assignment keeps the root's name |
| FilesystemTree.AssignKeepingRootIsIdentity | FilesystemTree.cpp:192-199 | the corrected assignment gives a tree equal to the original, with the same stats |
| FilesystemTree.DisplayStats | FilesystemTree.cpp:237-244 | the pair of numbers written; `FilesystemTree.StatsCountTree` states what they count |
| FilesystemTree.StatsCountTree | FilesystemTree.cpp:237-244 | the displayed stats count every directory and file below the root, and the root only when it is not named `C:` |
| FilesystemTree.DisplayTree | FilesystemTree.cpp:340-343 | the first line of the listing is the root's label |
| FilesystemTree.DisplayTreeOutline | FilesystemTree.cpp:340-360 | the listing has one line per node, in pre-order, each indented by its depth |
| FilesystemTree.Height | FilesystemTree.cpp:161-171 | every child directory the second loop recurses into is less high than its parent |
| FilesystemTree.FindByPath | FilesystemTree.cpp:145-176 | the search writes nothing from an unresolved start |
| FilesystemTree.FindByPathLines | FilesystemTree.cpp:145-176 | every line the search as written produces ends in a separator followed by the name, at any depth of the recursion |
| FilesystemTree.DirectCountLines | FilesystemTree.cpp:153-160 | the first loop adds one to the counter for each line it writes |
| FilesystemTree.CountByPathLines | FilesystemTree.h:119-120 | whatever the depth, the counter `matches` the search returns is the number of lines it writes |
| FilesystemTree.SearchMeasure | FilesystemTree.cpp:145-176 | at most three times the tree's height plus two, and at least 3 wherever the start resolves |
| FilesystemTree.ChildPathMeasure | FilesystemTree.cpp:161-171 | the start path of each recursive call has a smaller measure than its caller's, so the recursion ends |
| FilesystemTree.SearchFuel | FilesystemTree.cpp:145-176 | the fuel `find` is given is at least the measure of every start path |
| FilesystemTree.FindByPathStable | FilesystemTree.cpp:145-176 | once the fuel reaches the measure, more fuel gives the same lines: the cut-off never changes the output |
| FilesystemTree.Find | FilesystemTree.cpp:145-176 | the counter returned equals the number of lines written, and an unresolved start gives (0, nothing) |
| FilesystemTree.FindUnbounded | FilesystemTree.cpp:145-176 | on a tree keeping the invariant, `find` writes what the search writes with any larger fuel |
| FilesystemTree.EmptyNameFirstCreate | FilesystemTree.cpp:11-31 | `create("!", 1, "C:")` adds a directory named "" and reports success |
| FilesystemTree.EmptyNameSecondCreate | FilesystemTree.cpp:11-31 | `create("y", 0, "C:///")` then puts the file `y` into that directory |
| FilesystemTree.EmptyNameRootPaths | FilesystemTree.cpp:321-335 | `C:/` and `C://` name the root |
| FilesystemTree.EmptyNameDirPath | FilesystemTree.cpp:321-335 | `C:///` names the root's child called "" |
| FilesystemTree.FindThroughEmptyName | FilesystemTree.cpp:145-176 | in that tree, `find("y", "C:")` recurses through `C:/`, `C://` and `C:///`, writes `C:////y` and returns 1 |
| FilesystemTree.FindByPathIsWalk | FilesystemTree.cpp:145-176 | when the start does not end in a separator and no directory below it has an empty name, re-resolving each child path finds that child, so the search is the structural walk |
| FilesystemTree.FindMatchesOutline | FilesystemTree.cpp:145-176 | under those conditions the match count is the number of nodes below the start carrying the name, and every written line resolves to such a node |
| FilesystemTree.InsertAtFrame | FSNode.cpp:48-68 | an add below a path changes nothing on paths that split from the new child's path |
| FilesystemTree.DeleteAtFrame | FSNode.cpp:99-114 | a remove below a path changes nothing on paths that split from the removed child's path |
| FilesystemTree.InsertThenDelete | FSNode.cpp:48-114 | removing by name the child just added below a path gives back the tree |
| FilesystemTree.PathsCompare | FilesystemTree.cpp:330-335 | helper for the frame lemmas, not a model of the walk loop itself: two segment lists either split at some index or one extends the other |
| Hydrate.Fields | FilesystemTree.cpp:286-288 | the name is the text before the first space and the path the text after it; without a space, both are the whole line |
| Hydrate.DecodeLine | FilesystemTree.cpp:270-297 | a line decodes to a record with type code 0 or 1, a non-empty name without a space and a non-empty path; a directory record comes from a marker line; a lone marker throws |
| Hydrate.DecodeEncode | FilesystemTree.cpp:276-290 | the line written for a record decodes back to that record |
| Hydrate.EncodeDecode | FilesystemTree.cpp:276-290 | a decoded line with a space, and a space after any marker, is the line of its record |
| Hydrate.Step | FilesystemTree.cpp:270-299 | a line aborts the load exactly when it is a lone marker; a rejected record leaves the tree unchanged |
| Hydrate.Replay | FilesystemTree.cpp:270-299 | the loop never rejects more records than it reads lines; `Hydrate.ReplayAborts`, `Hydrate.ReplayInv` and `Hydrate.ReplayAppend` state the rest |
| Hydrate.Load | FilesystemTree.cpp:252-301 | a load aborts exactly when one of its lines is a lone marker; otherwise its tree keeps the tree invariant and no more records are rejected than there are lines |
| Hydrate.ReplayAborts | FilesystemTree.cpp:252-301 | a load throws exactly when one of its lines is a lone marker |
| Hydrate.ReplayAppend | FilesystemTree.cpp:270-299 | replaying two lists one after the other is replaying them joined |
| Hydrate.ReplayInv | FilesystemTree.cpp:252-301 | every tree a load builds keeps the tree invariant |
| Hydrate.LoadExample | FilesystemTree.cpp:252-301 | the lines `* d1 C:`, `* d2 C:/d1`, `f1 C:/d1` build `d1` holding `d2` and then `f1`, with nothing rejected |
| Hydrate.ExampleStats | FilesystemTree.cpp:206-244 | that tree counts 2 directories and 1 file |

## Left out

- Output streams: `displayTree`, `displayStats` and `find` return the lines or numbers they would write. The text `Directories: n` / `Files: n` of `displayStats` is not built.
- Reading the import file, its "not found" exception, and the error messages printed for rejected records. The lines come in as a sequence and the rejected records go out as one.
- Pointer identity, `shared_ptr` ownership and the destructor. The tree is a value. The detached cycle a move into the node's own subtree leaves in memory is not represented; only the reachable tree is.
- `FSNode::getChild(nullptr)`-style null arguments and the `childPtr != nullptr` guard of `addChild`. A node value is never null.
- `main.cpp` (the demonstration driver) is not part of this model.
- Strings.IsAlnum: classifies ASCII letters and digits only. `isalpha`/`isdigit` under other locales and negative `char` values are not modelled.
- Strings.LexLess: compares `char` values as code points. This agrees with `std::string::operator<` on the ASCII names used here.
- FilesystemTree.Create: requires the parent path to resolve and the type code to be 0 or 1. The source dereferences a null parent, and `isFile`/`isDirectory` of any other code is neither; both are undefined or unusable states.
- FilesystemTree.FindByPathIsWalk: equates the search with the structural walk only where the start does not end in a separator and no directory below it has an empty name. Elsewhere the source builds child paths that re-resolve to the parent or walk through the directory named ""; `FindByPath` follows that as written, and `FilesystemTree.FindThroughEmptyName` shows one such search.
- FilesystemTree.Format: requires the root to be a directory or to have no children. Only a file root holding children would make the loop spin forever, because `removeChild` refuses a file; `addChild` never gives a file children, so no tree built by the operations is excluded.
- Hydrate.DecodeLine: a lone `*` throws `out_of_range` in the source. It is modelled as aborting the whole load.
- Hydrate.Replay: uses the corrected create (see Findings), so a duplicate is reported as rejected. Where the parent path resolves, the tree it builds is the one the create as written builds (`FilesystemTree.CreateCheckedReports`). An unresolvable parent path, on which the source dereferences null, is rejected.

## Findings

| source | as written | input that shows it | evidently intended | confidence | as-written member | corrected member |
|---|---|---|---|---|---|---|
| FilesystemTree.cpp:21-30 | success is reported whenever the name is not `C:` or the parent's name, ignoring `addChild`'s result | `create("a", 1, "C:")` when `C:` already holds `a`: nothing is added, `true` is returned | success exactly when the node was added, as the comment on line 26 says | high, not executed | FilesystemTree.CreateDuplicateReportsSuccess | FilesystemTree.CreateChecked |
| FilesystemTree.cpp:192-199 | the copy's root is rebuilt through the name filter, so `C:` becomes `C` | copying the default tree: the copy's root is named `C` and its stats are (1, 0) instead of (0, 0) | an independent copy equal to the original, root name included | medium, not executed | FilesystemTree.AssignRenamesRoot | FilesystemTree.AssignKeepingRootIsIdentity |

# Secured linked list and in-memory file system, in Dafny

Two small in-memory components, each modelled with its data, its operations
and the properties their documentation and tests promise.

**Secured linked list.** A singly linked list of `SecuredNode`s in which each
node caches a hash of its own value and of its successor's *stored* hash
(`calc_hash(value)` at the tail, `calc_hash(value + str(next.hash_value))`
elsewhere). `add` prepends a node; `insert` and `remove` relink in place and
then rehash only the nodes before the change point, tail to head;
`find_tampered_node` scans head to tail for the first node whose stored hash
disagrees with a recomputation, and `is_valid_chain` asks whether there is
none.

- `SecuredNodes` (`secured_node.dfy`): the node class with its three mutable
  fields, the hash formula `HashOf`, and what an injective hash function lets
  one conclude about it.
- `HashChain` (`hash_chain.dfy`): the list as a value, a sequence of
  (value, stored hash) entries, with each list operation as a function of the
  old sequence (`Prepend`, `RehashDown`, `InsertModel`, `RemoveModel`,
  `FirstInvalid`) and their properties: error cases, the resulting values,
  untouched suffixes, preservation of validity, and where tampering is
  reported.
- `SecuredLinkedLists` (`secured_linked_list.dfy`): the list class over real
  heap nodes. A ghost spine `Nodes` lists the nodes head to tail; every method
  is proved to turn the old `Snapshot()` of the spine into the one the
  `HashChain` function prescribes, and to relink the spine as the source does.
- `Decimal` (`decimal.dfy`): `str(int)` as decimal text, with its
  injectivity proved.

**File system.** A tree of directory and file nodes addressed by absolute
`/`-separated paths: `add` creates files and directories (and any missing
directory on the way), `delete` removes an entry (a non-empty directory only
when `recursive`), `edit_file` replaces a file's object, and `list_directory`,
`get_file`, `exists`, `is_file` and `is_dir` query it.

- `Paths` (`paths.dfy`): `_parse_path` as `Components` = the non-empty
  segments of `str.split("/")`, and the facts about it the traversals rely on.
- `FsNodes` (`fs_node.dfy`): `DirectoryNode` and `FileNode` as the two
  constructors of a datatype, and the traversal `Lookup`.
- `FsTree` (`fs_tree.dfy`): `add`, `delete`, `edit_file` and the adds of
  `__init__` as functions from the old tree to the new tree and the error
  raised, with their path-by-path effect proved.
- `FileSystems` (`file_system.dfy`): the `FileSystem` class whose `root` the
  updating methods replace, with the traversal loops of the source.

The hash function is a parameter of the list (`calcHash`, fixed for its
lifetime). Python's `hash` is salted per process and has collisions, so
nothing assumes anything about it except the tamper-detection and
distinct-hash lemmas, which state `Injective(calcHash)` as a hypothesis.

Where the code and its documentation differ, the model follows the code:
`_compute_hash`'s doc-comment says the pair (value, next hash) is hashed; the
code hashes the concatenation `value + str(next.hash_value)`, which is not a
unique encoding of the pair (`"1"` + `"23"` and `"12"` + `"3"` hash alike).
`SecuredNodes.ConcatenationIsAmbiguous` proves this, and no lemma claims the
pair is uniquely encoded.

`insert` past the end of the list and `remove` at or past the end raise
IndexError, as both their doc-comments and their code say: `insert` indexes
`nodes[index - 1]` and `remove` indexes `nodes[index]`, and Python raises
before any link or hash changes. This error is the model's `PastEnd`.

## Model

| member | source | states |
|---|---|---|
| Decimal.IntToStringInjective | secured_linked_list/secured_node.py:53 | distinct integers have distinct decimal texts, so the successor's stored hash is readable from its text |
| SecuredNodes.HashOfSeparatesValues | secured_linked_list/secured_node.py:51-53 | with an injective hash, two different values under the same successor hash (or both at the tail) get different node hashes |
| SecuredNodes.HashOfSeparatesSuccessors | secured_linked_list/secured_node.py:53 | with an injective hash, one value with two different successor hashes gets two different node hashes |
| SecuredNodes.HashOfSeparatesTailFromInner | secured_linked_list/secured_node.py:51-53 | with an injective hash, a tail node's hash differs from that of an inner node with the same value |
| SecuredNodes.ConcatenationIsAmbiguous | secured_linked_list/secured_node.py:43-53 | whatever the hash function, value "1" before stored hash 23 and value "12" before stored hash 3 give the same node hash: the concatenation does not encode the pair |
| SecuredNodes.SecuredNode.SuccessorHash | secured_linked_list/secured_node.py:51-53 | the successor hash used is absent exactly for the tail |
| SecuredNodes.SecuredNode.constructor | secured_linked_list/secured_node.py:29-37 | a new node stores its value and successor and the hash of both, so it is valid |
| SecuredNodes.SecuredNode.RecomputeHash | secured_linked_list/secured_node.py:55-63 | only the node's own hash is written; value and next are unchanged; the node is valid afterwards (when it is not its own successor) |
| HashChain.FirstInvalidFrom | secured_linked_list/secured_linked_list.py:155-174 | the scan's answer is None exactly when every node from the start is valid, and otherwise an invalid position with every earlier one valid |
| HashChain.EmptyChainIsValid | secured_linked_list/secured_linked_list.py:19-21 | the empty list is a valid chain and no node is reported |
| HashChain.PrependProperties | secured_linked_list/secured_linked_list.py:63-73 | prepending adds the value in front, leaves every old entry as it was, and keeps a valid chain valid |
| HashChain.RehashDownProperties | secured_linked_list/secured_linked_list.py:45-60 | rehashing positions m-1 down to 0 keeps the values and everything from m on, makes positions 0..m-1 valid, and makes the whole chain valid when the part from m on was |
| HashChain.InsertModelProperties | secured_linked_list/secured_linked_list.py:105-139 | insert succeeds exactly for 0 <= index <= length (NegativeIndex, PastEnd otherwise); index 0 is add; the values become s[..i] + [v] + s[i..]; entries after the new node are untouched; a valid chain stays valid |
| HashChain.RemoveModelProperties | secured_linked_list/secured_linked_list.py:76-102 | remove fails on the empty list, a negative index, and an index at or past the end; index 0 just drops the head; otherwise the values become s[..i] + s[i+1..], entries after the gap are untouched, and a valid chain stays valid |
| HashChain.ValueTamperReportedAtNode | secured_linked_list/tests/test_secured_linked_list.py:47-68 | with an injective hash, overwriting the value of node k of a valid chain makes the scan report node k |
| HashChain.HashTamperReportedAtPredecessor | secured_linked_list/secured_linked_list.py:159-161 | with an injective hash, overwriting the stored hash of node k of a valid chain makes the scan report node k-1 (the head when k is 0) |
| HashChain.RelinkReportedAtPredecessor | secured_linked_list/secured_linked_list.py:155-174 | with an injective hash, relinking node p of a valid chain to a continuation whose first stored hash differs from the old successor's (or to or from the end) makes the scan report node p |
| HashChain.SameValueAddsHaveDistinctHashes | secured_linked_list/tests/test_secured_linked_list.py:103-112 | with an injective hash, three adds of one value leave three pairwise different stored hashes |
| SecuredLinkedLists.SecuredLinkedList.IsValidAt | secured_linked_list/secured_node.py:65-73 | a node's is_valid is exactly the chain model's validity at its position |
| SecuredLinkedLists.SecuredLinkedList.constructor | secured_linked_list/secured_linked_list.py:19-21 | a new list is empty |
| SecuredLinkedLists.SecuredLinkedList.CollectNodesUpTo | secured_linked_list/secured_linked_list.py:23-43 | the nodes at positions 0..index in order, all of them when the list is shorter, none for a negative index |
| SecuredLinkedLists.SecuredLinkedList.RehashNodes | secured_linked_list/secured_linked_list.py:45-60 | recomputing the given prefix tail to head yields the chain RehashDown describes, without relinking |
| SecuredLinkedLists.SecuredLinkedList.Add | secured_linked_list/secured_linked_list.py:63-73 | a fresh head holding the value in front of the old head; the chain model's prepend; validity kept |
| SecuredLinkedLists.SecuredLinkedList.Remove | secured_linked_list/secured_linked_list.py:76-102 | each IndexError case leaves the list unchanged; otherwise the node at index leaves the spine and the state is RemoveModel's; validity kept |
| SecuredLinkedLists.SecuredLinkedList.Insert | secured_linked_list/secured_linked_list.py:105-139 | each IndexError case leaves the list unchanged; otherwise a fresh node enters the spine at index and the state is InsertModel's; validity kept |
| SecuredLinkedLists.SecuredLinkedList.RecomputeAt | secured_linked_list/secured_linked_list.py:60 | `recompute_hash` on the node at position i changes only that entry, to the hash of its value and its successor's stored hash, leaving the spine valid |
| SecuredLinkedLists.SecuredLinkedList.DropHead | secured_linked_list/secured_linked_list.py:96 | moving the head to its successor drops exactly the first node and its entry, touching no node |
| SecuredLinkedLists.SecuredLinkedList.Unlink | secured_linked_list/secured_linked_list.py:100 | pointing the predecessor past position index removes exactly that node and its entry, every other entry unchanged |
| SecuredLinkedLists.SecuredLinkedList.LinkAfter | secured_linked_list/secured_linked_list.py:137 | pointing the predecessor at a new node already linked to position index puts exactly that node and its entry at index, every other entry unchanged |
| SecuredLinkedLists.SecuredLinkedList.InsertPastHead | secured_linked_list/secured_linked_list.py:134-139 | insert at index > 0: PastEnd with nothing linked when index exceeds the length, otherwise InsertModel's state with the new node in the spine |
| SecuredLinkedLists.SecuredLinkedList.SpliceIn | secured_linked_list/secured_linked_list.py:137-139 | linking the new node after position index-1 and rehashing the prefix gives InsertModel's state |
| SecuredLinkedLists.SecuredLinkedList.CutOut | secured_linked_list/secured_linked_list.py:100-102 | unlinking position index and rehashing the prefix gives RemoveModel's state and drops exactly that node from the spine |
| SecuredLinkedLists.SecuredLinkedList.FindTamperedNode | secured_linked_list/secured_linked_list.py:155-174 | the node at the first invalid position, or null when there is none |
| SecuredLinkedLists.SecuredLinkedList.IsValidChain | secured_linked_list/secured_linked_list.py:142-151 | true exactly when every node is valid, exactly when nothing is reported as tampered |
| SecuredLinkedLists.SecuredLinkedList.OverwriteValue | secured_linked_list/tests/test_secured_linked_list.py:53 | writing a node's value changes that entry's value and nothing else |
| SecuredLinkedLists.SecuredLinkedList.OverwriteHash | secured_linked_list/secured_linked_list.py:159-161 | writing a node's stored hash changes that entry's hash and nothing else |
| SecuredLinkedLists.SecuredLinkedList.DetectValueTamper | secured_linked_list/tests/test_secured_linked_list.py:47-68 | after the value of a node of a valid list is overwritten, is_valid_chain is false and find_tampered_node returns that node |
| SecuredLinkedLists.SecuredLinkedList.DetectHashTamper | secured_linked_list/secured_linked_list.py:155-174 | after the stored hash of a node of a valid list is overwritten, is_valid_chain is false and find_tampered_node returns its predecessor (the head for the head) |
| SecuredLinkedLists.SecuredLinkedList.OverwriteNext | secured_linked_list/secured_linked_list.py:155-174 | pointing node p at the node of a later position q (or null) drops exactly the nodes between them from the spine and their entries from the snapshot |
| SecuredLinkedLists.SecuredLinkedList.DetectRelinkTamper | secured_linked_list/secured_linked_list.py:155-174 | after node p of a valid list is relinked forward to a node with a different stored hash (or to the end), is_valid_chain is false and find_tampered_node returns node p |
| Paths.JoinSplit | file_system/file_system.py:99 | joining the "/"-split of a string with "/" gives the string back |
| Paths.SplitJoin | file_system/file_system.py:99 | splitting the "/"-join of slash-free parts gives the parts back |
| Paths.ComponentsAreNames | file_system/file_system.py:48-52 | every parsed component is non-empty and free of "/" |
| Paths.ComponentsAround | file_system/file_system.py:48-52 | the components of a + "/" + b are those of a followed by those of b |
| Paths.EmptySegmentsIgnored | file_system/file_system.py:48-52 | doubled and trailing slashes parse like single ones ("/a//b/" like "/a/b") |
| Paths.RebuiltPathRoundTrip | file_system/file_system.py:94-105 | parsing "/" + the join of parsed components gives those components back, so the rebuilt parent path reaches the prefix |
| Paths.ParsePath | file_system/file_system.py:36-52 | the loop keeps exactly the non-empty segments of the split, in order |
| FsNodes.LookupAppend | file_system/file_system.py:65-75 | traversing one more component looks it up among the children of the directory the prefix reaches, and fails past a file |
| FsTree.InsertPath | file_system/file_system.py:138-151 | the walk of add returns a directory under the same name as the one it started from |
| FsTree.RemoveEntry | file_system/file_system.py:179 | removing an entry below the root keeps the root's kind and name |
| FsTree.ReplaceFile | file_system/file_system.py:243 | replacing a file's object keeps the root's kind and name |
| FsTree.NoConflictUnderNewDirectory | file_system/node.py:44-48 | a directory add has just created is empty, so nothing added under it can conflict |
| FsTree.RejectedAddChangesNothing | file_system/file_system.py:139-150 | when the walk of add raises, the tree is exactly as before |
| FsTree.InsertPathConflicts | file_system/file_system.py:139-150 | the walk raises "exists as a file" exactly when a component on the way is a file, and "already exists" exactly otherwise when the file name is taken |
| FsTree.InsertPathStat | file_system/file_system.py:138-151 | a successful walk keeps everything that existed, makes every prefix a directory, stores the new file's object, and creates nothing else |
| FsTree.ReAddExistingDirectoryIsNoOp | file_system/file_system.py:138-146 | adding a directory that already exists leaves the tree as it was |
| FsTree.RemoveEntryStat | file_system/file_system.py:179 | deleting an entry removes it and everything below it and leaves every other path as it was |
| FsTree.ReplaceFileStat | file_system/file_system.py:243 | editing a file changes its object and nothing else |
| FsTree.AddPath | file_system/file_system.py:107-151 | add always leaves the root a directory under its name |
| FsTree.DeletePath | file_system/file_system.py:153-179 | delete always leaves the root a directory under its name |
| FsTree.EditPath | file_system/file_system.py:225-243 | edit_file always leaves the root a directory under its name |
| FsTree.AddPathResult | file_system/file_system.py:107-151 | "Cannot add to root path" exactly for a path without components; a rejected add changes nothing; a successful one keeps what existed, makes every proper prefix a directory and puts a directory or the file's object at the path |
| FsTree.AddPathConflicts | file_system/file_system.py:129-150 | add raises a path conflict exactly when a component it descends through is a file, or, for a file, when the path already exists |
| FsTree.DeletePathResult | file_system/file_system.py:153-179 | "Path not found" exactly for the root path or a missing path; "Directory not empty" exactly for a non-empty directory without recursive; otherwise exactly the path and what lies below it disappear |
| FsTree.EditPathResult | file_system/file_system.py:225-243 | "Path not found" for a missing path, "Cannot edit a directory" for a directory, otherwise the path holds the new object and every other path is as it was |
| FsTree.AddAll | file_system/file_system.py:30-34 | the adds of construction keep the root directory and its name |
| FsTree.AddAllPresent | file_system/file_system.py:18-34 | when construction succeeds every entry is present as the kind it asked for, with its file object |
| FileSystems.FileSystem.constructor | file_system/file_system.py:18-30 | an empty root directory named "" |
| FileSystems.FileSystem.FromFiles | file_system/file_system.py:18-34 | construction succeeds exactly when every add in turn succeeds, and raises the first add's error otherwise |
| FileSystems.FileSystem.TraverseTo | file_system/file_system.py:54-75 | the loop reaches the node the components lead to, or None at a missing child or a file met early |
| FileSystems.FileSystem.TraverseToParent | file_system/file_system.py:77-105 | (None, "") for the root path or an unreachable parent; otherwise the directory the prefix leads to and the last component |
| FileSystems.FileSystem.Add | file_system/file_system.py:107-151 | the new root and the error raised are those of AddPath |
| FileSystems.FileSystem.Delete | file_system/file_system.py:153-179 | the new root and the error raised are those of DeletePath |
| FileSystems.FileSystem.ListDirectory | file_system/file_system.py:181-201 | the child names of a directory, "Path not found" or "Not a directory" otherwise; a name is listed exactly when path/name exists |
| FileSystems.FileSystem.GetFile | file_system/file_system.py:203-223 | the file's object, "Path not found" for a missing path, "Path is a directory" for a directory |
| FileSystems.FileSystem.EditFile | file_system/file_system.py:225-243 | the new root and the error raised are those of EditPath |
| FileSystems.FileSystem.Exists | file_system/file_system.py:245-255 | true exactly when the path leads to a node |
| FileSystems.FileSystem.IsFile | file_system/file_system.py:257-268 | true exactly for a file; then the path exists and is not a directory |
| FileSystems.FileSystem.IsDir | file_system/file_system.py:270-281 | true exactly for a directory; then the path exists and is not a file |

## Left out

- Python's `hash` (salted per process, not collision free) is an arbitrary function parameter; collision freedom is never proved, only assumed (`Injective`) by the lemmas that need it.
- That insert or remove at i > 0 changes the stored hashes of positions 0..i-1 is not proved: injectivity does not exclude a recomputed hash equal to the old one.
- Out-of-band relinking is modelled only forward (to a later node or to null); a relink backwards would make the chain cyclic, and `find_tampered_node` on a cyclic chain is not modelled. A relink to a node whose stored hash equals the old successor's is not detected at the relinked node, and no lemma claims it is.
- The node base class `Node` of the file system is never instantiated by the code; only its two subclasses are modelled.
- File objects are an opaque type parameter; their content is never read or written.
- The in-place mutation of nested directory dictionaries by `add`, `delete` and `edit_file` is modelled as rebuilding the tree along the path and replacing `root`; with values, a node reference held elsewhere cannot observe the change, and the walks of those three operations are recursive functions rather than loops.
- `FileSystems.FileSystem.ListDirectory` returns the set of names: the source's list follows dictionary insertion order, which is not modelled.
- `FileSystems.FileSystem.FromFiles` takes the files as a sequence of (path, file object or none) pairs; the iteration order of the source's dictionary is that sequence's order. The construction that raises is a static method returning the error instead of a raising constructor.
- Object identity beyond the list spine and garbage collection of unlinked nodes are not modelled.
- Exception messages are modelled by one error constructor per message; the path text inside a message is not.

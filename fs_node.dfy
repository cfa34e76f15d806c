/**
 * The nodes of the in-memory file system. `FileNode` and `DirectoryNode`
 * become the two constructors of one datatype: `is_directory` is the
 * constructor test, only a directory has `children` (a map from child name to
 * node) and only a file has `file_obj`, an object of the opaque type T.
 */
module FsNodes {
  import opened Results

  datatype Node<T> =
    | Directory(name: string, children: map<string, Node<T>>)
    | File(name: string, fileObj: T)

  /** What a path leads to, as the queries see it: a directory, or a file with its object. */
  datatype Stat<T> = DirStat | FileStat(fileObj: T)

  /**
   * The loop of `_traverse_to` on parsed components: descend one component at
   * a time; a missing child, or a file met before the components run out,
   * gives None.
   */
  function Lookup<T>(node: Node<T>, comps: seq<string>): Option<Node<T>>
    decreases |comps|
  {
    if comps == [] then Some(node)
    else if !node.Directory? then None
    else if comps[0] !in node.children then None
    else Lookup(node.children[comps[0]], comps[1..])
  }

  /** The kind (and file object) found at `comps`, or None. */
  function StatAt<T>(node: Node<T>, comps: seq<string>): Option<Stat<T>> {
    match Lookup(node, comps)
    case None => None
    case Some(Directory(_, _)) => Some(DirStat)
    case Some(File(_, obj)) => Some(FileStat(obj))
  }

  predicate IsDirAt<T>(node: Node<T>, comps: seq<string>) {
    StatAt(node, comps) == Some(DirStat)
  }

  predicate IsFileAt<T>(node: Node<T>, comps: seq<string>) {
    StatAt(node, comps).Some? && StatAt(node, comps).value.FileStat?
  }

  /** One step of the descent, for the statement of inductive proofs. */
  lemma StatStep<T>(node: Node<T>, x: string, q: seq<string>)
    ensures StatAt(node, [x] + q) ==
      if node.Directory? && x in node.children then StatAt(node.children[x], q) else None
  {
    assert ([x] + q)[0] == x && ([x] + q)[1..] == q;
  }

  /** Looking up one more component looks it up among the children of what the prefix reaches. */
  lemma {:induction false} LookupAppend<T>(node: Node<T>, p: seq<string>, n: string)
    ensures Lookup(node, p + [n]) ==
      match Lookup(node, p)
      case Some(Directory(_, ch)) => if n in ch then Some(ch[n]) else None
      case _ => None
    decreases |p|
  {
    if p == [] {
      assert p + [n] == [n] && [n][1..] == [];
    } else {
      assert (p + [n])[0] == p[0] && (p + [n])[1..] == p[1..] + [n];
      if node.Directory? && p[0] in node.children {
        LookupAppend(node.children[p[0]], p[1..], n);
      }
    }
  }
}

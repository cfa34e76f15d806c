/**
 * The tree updates behind `add`, `delete` and `edit_file`. The source walks
 * the path and mutates the node it reaches in place; here the same walk
 * rebuilds the path from the root as a value, and every intermediate
 * mutation `add` performs before it raises is kept in the result.
 */
module FsTree {
  import opened Results
  import opened Paths
  import opened FsNodes

  /** The ValueError raised by the file system, by message. */
  datatype FsError =
    | CannotAddToRoot       // "Cannot add to root path"
    | ExistsAsFile(name: string)   // "Path conflict: '<name>' exists as a file"
    | AlreadyExists(name: string)  // "Path conflict: '<name>' already exists"
    | PathNotFound          // "Path not found: <path>"
    | DirectoryNotEmpty     // "Directory not empty: <path>. ..."
    | NotADirectory         // "Not a directory: <path>"
    | IsADirectory          // "Path is a directory, not a file: <path>"
    | CannotEditDirectory   // "Cannot edit a directory: <path>"

  /**
   * The loops of `add` from directory `dir`: walk `dirs`, creating each
   * missing directory and raising when a component is a file; then, for a
   * file (`leaf` holds its name and object), raise if the name is taken or
   * store a new file node. Returns the updated directory and the error raised,
   * if any; creations made before the error stay in the returned tree.
   */
  function InsertPath<T>(dir: Node<T>, dirs: seq<string>, leaf: Option<(string, T)>): (r: (Node<T>, Option<FsError>))
    requires dir.Directory?
    ensures r.0.Directory? && r.0.name == dir.name
    decreases |dirs|
  {
    if dirs == [] then
      match leaf
      case None => (dir, None)
      case Some((name, obj)) =>
        if name in dir.children then (dir, Some(AlreadyExists(name)))
        else (dir.(children := dir.children[name := File(name, obj)]), None)
    else
      var d := dirs[0];
      var current := if d in dir.children then dir else dir.(children := dir.children[d := Directory(d, map[])]);
      var child := current.children[d];
      if !child.Directory? then (current, Some(ExistsAsFile(d)))
      else
        var (newChild, err) := InsertPath(child, dirs[1..], leaf);
        (current.(children := current.children[d := newChild]), err)
  }

  /** `del parent.children[name]` for the directory reached by `parent`. */
  function RemoveEntry<T>(dir: Node<T>, parent: seq<string>, name: string): (r: Node<T>)
    requires IsDirAt(dir, parent)
    ensures r.Directory? == dir.Directory? && r.name == dir.name
    decreases |parent|
  {
    if parent == [] then dir.(children := dir.children - {name})
    else
      var p := parent[0];
      dir.(children := dir.children[p := RemoveEntry(dir.children[p], parent[1..], name)])
  }

  /** `node.file_obj = obj` for the file reached by `path`. */
  function ReplaceFile<T>(node: Node<T>, path: seq<string>, obj: T): (r: Node<T>)
    requires IsFileAt(node, path)
    ensures r.Directory? == node.Directory? && r.name == node.name
    decreases |path|
  {
    if path == [] then node.(fileObj := obj)
    else
      var p := path[0];
      node.(children := node.children[p := ReplaceFile(node.children[p], path[1..], obj)])
  }

  // ---------------------------------------------------------------------------
  // add

  /**
   * A directory `add` has just created is empty, so nothing below it can
   * conflict: the walk under it never raises.
   */
  lemma {:induction false} NoConflictUnderNewDirectory<T>(name: string, dirs: seq<string>, leaf: Option<(string, T)>)
    ensures InsertPath(Directory(name, map[]), dirs, leaf).1 == None
    decreases |dirs|
  {
    if dirs != [] {
      NoConflictUnderNewDirectory(dirs[0], dirs[1..], leaf);
    }
  }

  /**
   * A rejected `add` leaves the tree as it was: both conflicts can only be met
   * before the first new directory is created.
   */
  lemma {:induction false} RejectedAddChangesNothing<T>(dir: Node<T>, dirs: seq<string>, leaf: Option<(string, T)>)
    requires dir.Directory?
    ensures InsertPath(dir, dirs, leaf).1.Some? ==> InsertPath(dir, dirs, leaf).0 == dir
    decreases |dirs|
  {
    if dirs != [] {
      var d := dirs[0];
      if d !in dir.children {
        NoConflictUnderNewDirectory(d, dirs[1..], leaf);
      } else if dir.children[d].Directory? {
        RejectedAddChangesNothing(dir.children[d], dirs[1..], leaf);
        if InsertPath(dir, dirs, leaf).1.Some? {
          assert dir.children[d := dir.children[d]] == dir.children;
        }
      }
    }
  }

  /** Some proper or full prefix of `dirs` is a file. */
  ghost predicate FileOnPath<T>(dir: Node<T>, dirs: seq<string>) {
    exists k :: 1 <= k <= |dirs| && IsFileAt(dir, dirs[..k])
  }

  lemma FileOnPathStep<T>(dir: Node<T>, dirs: seq<string>)
    requires dir.Directory? && dirs != []
    ensures FileOnPath(dir, dirs) <==>
      dirs[0] in dir.children &&
      (!dir.children[dirs[0]].Directory? || FileOnPath(dir.children[dirs[0]], dirs[1..]))
  {
    var d := dirs[0];
    forall k | 1 <= k <= |dirs|
      ensures StatAt(dir, dirs[..k]) ==
        if d in dir.children then StatAt(dir.children[d], dirs[1..k]) else None
    {
      assert dirs[..k] == [d] + dirs[1..k];
      StatStep(dir, d, dirs[1..k]);
    }
    if d in dir.children && dir.children[d].Directory? {
      var c := dir.children[d];
      if FileOnPath(c, dirs[1..]) {
        var k :| 1 <= k <= |dirs[1..]| && IsFileAt(c, dirs[1..][..k]);
        assert dirs[1..][..k] == dirs[1..k + 1];
      }
      if FileOnPath(dir, dirs) {
        var k :| 1 <= k <= |dirs| && IsFileAt(dir, dirs[..k]);
        assert k > 1;
        assert dirs[1..][..k - 1] == dirs[1..k];
      }
    } else if d in dir.children {
      assert IsFileAt(dir, dirs[..1]);
    } else {
    }
  }

  /**
   * When `add` raises: with ExistsAsFile exactly when a component of `dirs`
   * is a file, and otherwise with AlreadyExists exactly when the file name is
   * already taken in the target directory.
   */
  lemma {:induction false} InsertPathConflicts<T>(dir: Node<T>, dirs: seq<string>, leaf: Option<(string, T)>)
    requires dir.Directory?
    ensures var err := InsertPath(dir, dirs, leaf).1;
      && (err.Some? && err.value.ExistsAsFile? <==> FileOnPath(dir, dirs))
      && (err.Some? && err.value.AlreadyExists? <==>
            !FileOnPath(dir, dirs) && leaf.Some? && StatAt(dir, dirs + [leaf.value.0]).Some?)
      && (err.Some? ==> err.value.ExistsAsFile? || (leaf.Some? && err.value == AlreadyExists(leaf.value.0)))
    decreases |dirs|
  {
    if dirs == [] {
      assert !FileOnPath(dir, dirs);
      if leaf.Some? {
        StatStep(dir, leaf.value.0, []);
        assert dirs + [leaf.value.0] == [leaf.value.0] + [];
      }
    } else {
      var d := dirs[0];
      FileOnPathStep(dir, dirs);
      if leaf.Some? {
        assert dirs + [leaf.value.0] == [d] + (dirs[1..] + [leaf.value.0]);
        StatStep(dir, d, dirs[1..] + [leaf.value.0]);
      }
      if d !in dir.children {
        NoConflictUnderNewDirectory(d, dirs[1..], leaf);
      } else if dir.children[d].Directory? {
        InsertPathConflicts(dir.children[d], dirs[1..], leaf);
      }
    }
  }

  /**
   * What a successful `add` does, path by path: everything that existed keeps
   * its kind and file object; every prefix of `dirs` is a directory; the new
   * file holds its object; and nothing else comes into existence.
   */
  lemma {:induction false} InsertPathStat<T>(dir: Node<T>, dirs: seq<string>, leaf: Option<(string, T)>, q: seq<string>)
    requires dir.Directory?
    requires InsertPath(dir, dirs, leaf).1 == None
    ensures var r := InsertPath(dir, dirs, leaf).0;
      && (StatAt(dir, q).Some? ==> StatAt(r, q) == StatAt(dir, q))
      && (q <= dirs ==> StatAt(r, q) == Some(DirStat))
      && (leaf.Some? && q == dirs + [leaf.value.0] ==> StatAt(r, q) == Some(FileStat(leaf.value.1)))
      && (StatAt(r, q).Some? ==>
            StatAt(dir, q).Some? || q <= dirs || (leaf.Some? && q == dirs + [leaf.value.0]))
    decreases |dirs|
  {
    var r := InsertPath(dir, dirs, leaf).0;
    if q == [] {
    } else {
      var x := q[0];
      assert q == [x] + q[1..];
      StatStep(dir, x, q[1..]);
      StatStep(r, x, q[1..]);
      if dirs == [] {
        if leaf.Some? && x == leaf.value.0 {
          StatStep(File(x, leaf.value.1), x, []);
          if q[1..] == [] {
            assert q == dirs + [leaf.value.0];
          } else {
            assert q != dirs + [leaf.value.0];
          }
        }
      } else {
        var d := dirs[0];
        var current := if d in dir.children then dir else dir.(children := dir.children[d := Directory(d, map[])]);
        var child := current.children[d];
        assert child.Directory?;
        if x == d {
          InsertPathStat(child, dirs[1..], leaf, q[1..]);
          assert q <= dirs <==> q[1..] <= dirs[1..];
          if leaf.Some? {
            assert q == dirs + [leaf.value.0] <==> q[1..] == dirs[1..] + [leaf.value.0];
          }
          if d !in dir.children {
            assert StatAt(child, q[1..]).Some? ==> q[1..] == [];
          }
        } else {
          assert !(q <= dirs);
          assert leaf.Some? ==> q != dirs + [leaf.value.0];
        }
      }
    }
  }

  /** Adding a directory that already exists changes nothing. */
  lemma {:induction false} ReAddExistingDirectoryIsNoOp<T>(dir: Node<T>, dirs: seq<string>)
    requires dir.Directory? && IsDirAt(dir, dirs)
    ensures InsertPath(dir, dirs, None) == (dir, None)
    decreases |dirs|
  {
    if dirs != [] {
      var d := dirs[0];
      StatStep(dir, d, dirs[1..]);
      assert dirs == [d] + dirs[1..];
      var c := dir.children[d];
      if c.Directory? {
        ReAddExistingDirectoryIsNoOp(c, dirs[1..]);
        assert dir.children[d := c] == dir.children;
      }
    }
  }

  // ---------------------------------------------------------------------------
  // delete and edit_file

  /**
   * Deleting the entry `name` of the directory at `parent` removes that path
   * and everything below it, and leaves every other path as it was.
   */
  lemma {:induction false} RemoveEntryStat<T>(dir: Node<T>, parent: seq<string>, name: string, q: seq<string>)
    requires IsDirAt(dir, parent)
    ensures StatAt(RemoveEntry(dir, parent, name), q) ==
      if parent + [name] <= q then None else StatAt(dir, q)
    decreases |parent|
  {
    var r := RemoveEntry(dir, parent, name);
    if q != [] {
      var x := q[0];
      assert q == [x] + q[1..];
      StatStep(dir, x, q[1..]);
      StatStep(r, x, q[1..]);
      if parent == [] {
        assert parent + [name] <= q <==> x == name;
      } else {
        var p := parent[0];
        assert parent == [p] + parent[1..];
        StatStep(dir, p, parent[1..]);
        assert parent + [name] <= q <==> x == p && parent[1..] + [name] <= q[1..];
        if x == p {
          RemoveEntryStat(dir.children[p], parent[1..], name, q[1..]);
        }
      }
    }
  }

  /** Editing the file at `path` changes its object and nothing else. */
  lemma {:induction false} ReplaceFileStat<T>(node: Node<T>, path: seq<string>, obj: T, q: seq<string>)
    requires IsFileAt(node, path)
    ensures StatAt(ReplaceFile(node, path, obj), q) ==
      if q == path then Some(FileStat(obj)) else StatAt(node, q)
    decreases |path|
  {
    var r := ReplaceFile(node, path, obj);
    if path == [] {
      if q != [] {
        assert q == [q[0]] + q[1..];
        StatStep(node, q[0], q[1..]);
        StatStep(r, q[0], q[1..]);
      }
    } else {
      var p := path[0];
      assert path == [p] + path[1..];
      StatStep(node, p, path[1..]);
      if q != [] {
        var x := q[0];
        assert q == [x] + q[1..];
        StatStep(node, x, q[1..]);
        StatStep(r, x, q[1..]);
        if x == p {
          ReplaceFileStat(node.children[p], path[1..], obj, q[1..]);
        }
      }
    }
  }

  // ---------------------------------------------------------------------------
  // The three updates, on a whole path

  /** `add` makes a directory when the path ends in "/" or no file object is given. */
  predicate IsDirectoryRequest<T>(path: string, fileObj: Option<T>) {
    (|path| > 0 && path[|path| - 1] == '/') || fileObj.None?
  }

  /** `add(path, file_obj)` on the tree `root`: the new tree and the error raised, if any. */
  function AddPath<T>(root: Node<T>, path: string, fileObj: Option<T>): (r: (Node<T>, Option<FsError>))
    requires root.Directory?
    ensures r.0.Directory? && r.0.name == root.name
  {
    var comps := Components(path);
    if comps == [] then (root, Some(CannotAddToRoot))
    else if IsDirectoryRequest(path, fileObj) then InsertPath(root, comps, None)
    else InsertPath(root, comps[..|comps| - 1], Some((comps[|comps| - 1], fileObj.value)))
  }

  /** `delete(path, recursive)` on the tree `root`. */
  function DeletePath<T>(root: Node<T>, path: string, recursive: bool): (r: (Node<T>, Option<FsError>))
    requires root.Directory?
    ensures r.0.Directory? && r.0.name == root.name
  {
    var comps := Components(path);
    if comps == [] then (root, Some(PathNotFound))
    else
      var parent := comps[..|comps| - 1];
      var name := comps[|comps| - 1];
      match Lookup(root, parent)
      case Some(Directory(_, children)) =>
        if name !in children then (root, Some(PathNotFound))
        else if children[name].Directory? && |children[name].children| > 0 && !recursive then
          (root, Some(DirectoryNotEmpty))
        else (RemoveEntry(root, parent, name), None)
      case _ => (root, Some(PathNotFound))
  }

  /** `edit_file(path, new_file_obj)` on the tree `root`. */
  function EditPath<T>(root: Node<T>, path: string, obj: T): (r: (Node<T>, Option<FsError>))
    requires root.Directory?
    ensures r.0.Directory? && r.0.name == root.name
  {
    var comps := Components(path);
    match Lookup(root, comps)
    case None => (root, Some(PathNotFound))
    case Some(Directory(_, _)) => (root, Some(CannotEditDirectory))
    case Some(File(_, _)) => (ReplaceFile(root, comps, obj), None)
  }

  /**
   * `add`: it raises CannotAddToRoot exactly for a path without components;
   * any rejected add leaves the tree unchanged; a successful add keeps
   * everything that existed, makes every directory on the path, and leaves a
   * directory or a file holding `fileObj` at the path.
   */
  lemma AddPathResult<T>(root: Node<T>, path: string, fileObj: Option<T>, q: seq<string>)
    requires root.Directory?
    ensures var (r, err) := AddPath(root, path, fileObj);
      var comps := Components(path);
      && (err == Some(CannotAddToRoot) <==> comps == [])
      && (err.Some? ==> r == root)
      && (err.None? && StatAt(root, q).Some? ==> StatAt(r, q) == StatAt(root, q))
      && (err.None? && q < comps ==> StatAt(r, q) == Some(DirStat))
      && (err.None? ==>
            StatAt(r, comps) ==
              (if IsDirectoryRequest(path, fileObj) then Some(DirStat) else Some(FileStat(fileObj.value))))
  {
    var comps := Components(path);
    if comps != [] {
      var n := |comps| - 1;
      if IsDirectoryRequest(path, fileObj) {
        RejectedAddChangesNothing(root, comps, None);
        InsertPathConflicts(root, comps, None);
        if AddPath(root, path, fileObj).1.None? {
          InsertPathStat(root, comps, None, q);
          InsertPathStat(root, comps, None, comps);
        }
      } else {
        var leaf := Some((comps[n], fileObj.value));
        RejectedAddChangesNothing(root, comps[..n], leaf);
        InsertPathConflicts(root, comps[..n], leaf);
        if AddPath(root, path, fileObj).1.None? {
          InsertPathStat(root, comps[..n], leaf, q);
          InsertPathStat(root, comps[..n], leaf, comps);
          assert comps == comps[..n] + [comps[n]];
          if q < comps {
            assert q <= comps[..n];
          }
        }
      }
    }
  }

  /**
   * `add` raises a path conflict exactly when a component it must descend
   * through is a file, or when the file name is already taken.
   */
  lemma AddPathConflicts<T>(root: Node<T>, path: string, fileObj: Option<T>)
    requires root.Directory?
    ensures var err := AddPath(root, path, fileObj).1;
      var comps := Components(path);
      comps != [] ==>
        && (IsDirectoryRequest(path, fileObj) ==>
              (err.Some? <==> FileOnPath(root, comps)))
        && (!IsDirectoryRequest(path, fileObj) ==>
              (err.Some? <==> FileOnPath(root, comps[..|comps| - 1]) || StatAt(root, comps).Some?))
  {
    var comps := Components(path);
    if comps != [] {
      var n := |comps| - 1;
      if IsDirectoryRequest(path, fileObj) {
        InsertPathConflicts(root, comps, None);
      } else {
        InsertPathConflicts(root, comps[..n], Some((comps[n], fileObj.value)));
        assert comps == comps[..n] + [comps[n]];
        if FileOnPath(root, comps[..n]) {
          var k :| 1 <= k <= |comps[..n]| && IsFileAt(root, comps[..n][..k]);
          assert comps[..n][..k] == comps[..k];
          if StatAt(root, comps).Some? {
            assert comps[..k] + comps[k..] == comps;
            LookupPastFile(root, comps[..k], comps[k..]);
          }
        }
      }
    }
  }

  /** Nothing lies below a file. */
  lemma {:induction false} LookupPastFile<T>(node: Node<T>, p: seq<string>, rest: seq<string>)
    requires IsFileAt(node, p) && rest != []
    ensures StatAt(node, p + rest) == None
    decreases |p|
  {
    if p == [] {
      assert rest == [rest[0]] + rest[1..];
      StatStep(node, rest[0], rest[1..]);
    } else {
      assert p + rest == [p[0]] + (p[1..] + rest);
      assert p == [p[0]] + p[1..];
      StatStep(node, p[0], p[1..]);
      StatStep(node, p[0], p[1..] + rest);
      LookupPastFile(node.children[p[0]], p[1..], rest);
    }
  }

  /**
   * `delete`: "Path not found" for the root path and for a path that does not
   * exist; "Directory not empty" for a non-empty directory unless
   * `recursive`; otherwise exactly the paths at and below `path` disappear.
   */
  lemma DeletePathResult<T>(root: Node<T>, path: string, recursive: bool, q: seq<string>)
    requires root.Directory?
    ensures var (r, err) := DeletePath(root, path, recursive);
      var comps := Components(path);
      && (err == Some(PathNotFound) <==> comps == [] || StatAt(root, comps).None?)
      && (err == Some(DirectoryNotEmpty) <==>
            comps != [] && !recursive &&
            match Lookup(root, comps)
            case Some(Directory(_, children)) => |children| > 0
            case _ => false)
      && (err.Some? ==> r == root)
      && (err.None? ==> StatAt(r, q) == if comps <= q then None else StatAt(root, q))
  {
    var comps := Components(path);
    if comps != [] {
      var n := |comps| - 1;
      assert comps == comps[..n] + [comps[n]];
      LookupAppend(root, comps[..n], comps[n]);
      if DeletePath(root, path, recursive).1.None? {
        RemoveEntryStat(root, comps[..n], comps[n], q);
      }
    }
  }

  /**
   * `edit_file`: "Path not found" for a missing path, "Cannot edit a
   * directory" for a directory; otherwise the file at `path` holds `obj` and
   * every other path is as it was.
   */
  lemma EditPathResult<T>(root: Node<T>, path: string, obj: T, q: seq<string>)
    requires root.Directory?
    ensures var (r, err) := EditPath(root, path, obj);
      var comps := Components(path);
      && (err == Some(PathNotFound) <==> StatAt(root, comps).None?)
      && (err == Some(CannotEditDirectory) <==> StatAt(root, comps) == Some(DirStat))
      && (err.Some? ==> r == root)
      && (err.None? ==> StatAt(r, q) == if q == comps then Some(FileStat(obj)) else StatAt(root, q))
  {
    var comps := Components(path);
    if EditPath(root, path, obj).1.None? {
      ReplaceFileStat(root, comps, obj, q);
    }
  }

  // ---------------------------------------------------------------------------
  // Construction from a collection of files

  /** The adds of `__init__`, in order, stopping at the first one that raises. */
  function AddAll<T>(root: Node<T>, files: seq<(string, Option<T>)>): (r: (Node<T>, Option<FsError>))
    requires root.Directory?
    ensures r.0.Directory? && r.0.name == root.name
    decreases |files|
  {
    if files == [] then (root, None)
    else
      var (tree, err) := AddPath(root, files[0].0, files[0].1);
      if err.Some? then (tree, err) else AddAll(tree, files[1..])
  }

  /** What the entry `(path, fileObj)` leaves at its path once added. */
  function Expected<T>(path: string, fileObj: Option<T>): Stat<T> {
    if IsDirectoryRequest(path, fileObj) then DirStat else FileStat(fileObj.value)
  }

  /**
   * When every add of `__init__` succeeds, every entry is in the resulting
   * tree as the kind it asked for, and everything in the starting tree is
   * still there.
   */
  lemma {:induction false} AddAllPresent<T>(root: Node<T>, files: seq<(string, Option<T>)>, q: seq<string>)
    requires root.Directory?
    requires AddAll(root, files).1 == None
    ensures forall i :: 0 <= i < |files| ==>
      StatAt(AddAll(root, files).0, Components(files[i].0)) == Some(Expected(files[i].0, files[i].1))
    ensures StatAt(root, q).Some? ==> StatAt(AddAll(root, files).0, q) == StatAt(root, q)
    decreases |files|
  {
    if files != [] {
      var (path, obj) := files[0];
      var tree := AddPath(root, path, obj).0;
      AddPathResult(root, path, obj, q);
      AddAllPresent(tree, files[1..], q);
      forall i | 0 <= i < |files|
        ensures StatAt(AddAll(root, files).0, Components(files[i].0)) == Some(Expected(files[i].0, files[i].1))
      {
        if i == 0 {
          AddPathResult(root, path, obj, Components(path));
          AddAllPresent(tree, files[1..], Components(path));
        } else {
          assert files[i] == files[1..][i - 1];
        }
      }
    }
  }
}

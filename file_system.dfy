/**
 * The in-memory file system: a tree of directories and files addressed by
 * absolute "/"-separated paths. The tree is the value in `root`, replaced by
 * `add`, `delete` and `edit_file`; the queries read it through a traversal.
 * A node reference handed out by a traversal is modelled by the node together
 * with its position (its path components) in `root`.
 */
module FileSystems {
  import opened Results
  import opened Paths
  import opened FsNodes
  import opened FsTree

  class FileSystem<T> {
    var root: Node<T>

    /** The root is always the directory named "". */
    ghost predicate Valid()
      reads this
    {
      root.Directory? && root.name == ""
    }

    /** `FileSystem()`: an empty root directory. */
    constructor ()
      ensures Valid() && root == Directory("", map[])
    {
      root := Directory("", map[]);
    }

    /**
     * `FileSystem(files)`: the entries are added one after the other; the
     * first add that raises makes construction raise that error.
     */
    static method FromFiles(files: seq<(string, Option<T>)>) returns (r: Result<FileSystem<T>, FsError>)
      ensures r.Ok? <==> AddAll(Directory("", map[]), files).1 == None
      ensures r.Ok? ==> fresh(r.value) && r.value.Valid() && r.value.root == AddAll(Directory("", map[]), files).0
      ensures r.Err? ==> AddAll(Directory("", map[]), files).1 == Some(r.error)
    {
      var fs := new FileSystem<T>();
      for i := 0 to |files|
        invariant fs.Valid()
        invariant AddAll(fs.root, files[i..]) == AddAll(Directory("", map[]), files)
      {
        assert files[i..][1..] == files[i + 1..];
        var err := fs.Add(files[i].0, files[i].1);
        if err.Some? {
          return Err(err.value);
        }
      }
      return Ok(fs);
    }

    /**
     * `_traverse_to`: descend from the root one component at a time, giving
     * None at a missing child or at a file met before the components run out.
     * `at` is the position of the node reached.
     */
    method TraverseTo(path: string) returns (r: Option<Node<T>>, at: seq<string>)
      ensures r == Lookup(root, Components(path))
      ensures at == Components(path)
    {
      at := ParsePath(path);
      var current := root;
      for i := 0 to |at|
        invariant Lookup(root, at) == Lookup(current, at[i..])
      {
        assert at[i..][0] == at[i] && at[i..][1..] == at[i + 1..];
        if !current.Directory? {
          return None, at;
        }
        if at[i] !in current.children {
          return None, at;
        }
        current := current.children[at[i]];
      }
      assert at[|at|..] == [];
      return Some(current), at;
    }

    /**
     * `_traverse_to_parent`: the directory holding the last component of
     * `path` and that component's name, or (None, "") when the path has no
     * components or its parent is not a reachable directory. The parent is
     * reached by traversing the rebuilt path "/" + the joined prefix.
     */
    method TraverseToParent(path: string) returns (parent: Option<Node<T>>, childName: string, parentAt: seq<string>)
      requires Valid()
      ensures var comps := Components(path);
        if comps == [] then parent == None && childName == ""
        else
          var prefix := comps[..|comps| - 1];
          match Lookup(root, prefix)
          case Some(Directory(_, _)) =>
            parent == Lookup(root, prefix) && childName == comps[|comps| - 1] && parentAt == prefix
          case _ => parent == None && childName == ""
    {
      var comps := ParsePath(path);
      if |comps| == 0 {
        return None, "", [];
      }
      childName := comps[|comps| - 1];
      if |comps| == 1 {
        return Some(root), childName, [];
      }
      var prefix := comps[..|comps| - 1];
      var parentPath := "/" + Join(prefix);
      RebuiltPathRoundTrip(prefix);
      var found, at := TraverseTo(parentPath);
      if found.None? || !found.value.Directory? {
        return None, "", [];
      }
      return found, childName, at;
    }

    /**
     * `add(path, file_obj)`: a directory when the path ends in "/" or no file
     * object is given, a file otherwise; missing directories on the way are
     * created. The error raised, if any, is returned.
     */
    method Add(path: string, fileObj: Option<T>) returns (err: Option<FsError>)
      requires Valid()
      modifies this
      ensures Valid()
      ensures (root, err) == AddPath(old(root), path, fileObj)
    {
      var comps := ParsePath(path);
      if |comps| == 0 {
        return Some(CannotAddToRoot);
      }
      var isDirectory := IsDirectoryRequest(path, fileObj);
      var dirs, fileName := comps, None;
      if !isDirectory {
        dirs, fileName := comps[..|comps| - 1], Some((comps[|comps| - 1], fileObj.value));
      }
      var result := InsertPath(root, dirs, fileName);
      root, err := result.0, result.1;
    }

    /**
     * `delete(path, recursive)`: "Path not found" when the parent cannot be
     * reached or has no such entry, "Directory not empty" for a non-empty
     * directory unless `recursive`; otherwise the entry is removed.
     */
    method Delete(path: string, recursive: bool) returns (err: Option<FsError>)
      requires Valid()
      modifies this
      ensures Valid()
      ensures (root, err) == DeletePath(old(root), path, recursive)
    {
      var parent, childName, parentAt := TraverseToParent(path);
      if parent.None? || childName !in parent.value.children {
        return Some(PathNotFound);
      }
      var child := parent.value.children[childName];
      if child.Directory? && |child.children| > 0 && !recursive {
        return Some(DirectoryNotEmpty);
      }
      root := RemoveEntry(root, parentAt, childName);
      err := None;
    }

    /**
     * `list_directory(path)`: the names of the entries of the directory at
     * `path`; "Path not found" or "Not a directory" otherwise. A name is
     * listed exactly when `path + "/" + name` exists.
     */
    method ListDirectory(path: string) returns (r: Result<set<string>, FsError>)
      ensures r.Ok? <==> IsDirAt(root, Components(path))
      ensures r.Err? ==>
        r.error == if StatAt(root, Components(path)).None? then PathNotFound else NotADirectory
      ensures r.Ok? ==> r.value == Lookup(root, Components(path)).value.children.Keys
      ensures r.Ok? ==> forall n :: IsName(n) ==>
        (n in r.value <==> StatAt(root, Components(path + "/" + n)).Some?)
    {
      var node, at := TraverseTo(path);
      if node.None? {
        return Err(PathNotFound);
      }
      if !node.value.Directory? {
        return Err(NotADirectory);
      }
      r := Ok(node.value.children.Keys);
      forall n | IsName(n)
        ensures n in r.value <==> StatAt(root, Components(path + "/" + n)).Some?
      {
        ComponentsAround(path, n);
        ComponentsOfName(n);
        LookupAppend(root, at, n);
      }
    }

    /** `get_file(path)`: the file object at `path`, or the error raised. */
    method GetFile(path: string) returns (r: Result<T, FsError>)
      ensures match StatAt(root, Components(path))
        case None => r == Err(PathNotFound)
        case Some(DirStat) => r == Err(IsADirectory)
        case Some(FileStat(obj)) => r == Ok(obj)
    {
      var node, _ := TraverseTo(path);
      if node.None? {
        return Err(PathNotFound);
      }
      if node.value.Directory? {
        return Err(IsADirectory);
      }
      return Ok(node.value.fileObj);
    }

    /** `edit_file(path, new_file_obj)`: replace the object of the file at `path`. */
    method EditFile(path: string, newFileObj: T) returns (err: Option<FsError>)
      requires Valid()
      modifies this
      ensures Valid()
      ensures (root, err) == EditPath(old(root), path, newFileObj)
    {
      var node, at := TraverseTo(path);
      if node.None? {
        return Some(PathNotFound);
      }
      if node.value.Directory? {
        return Some(CannotEditDirectory);
      }
      root := ReplaceFile(root, at, newFileObj);
      err := None;
    }

    /** `exists(path)`. */
    method Exists(path: string) returns (b: bool)
      ensures b <==> StatAt(root, Components(path)).Some?
    {
      var node, _ := TraverseTo(path);
      b := node.Some?;
    }

    /** `is_file(path)`: exists, and is not a directory. */
    method IsFile(path: string) returns (b: bool)
      ensures b <==> IsFileAt(root, Components(path))
      ensures b ==> StatAt(root, Components(path)).Some? && !IsDirAt(root, Components(path))
    {
      var node, _ := TraverseTo(path);
      b := node.Some? && !node.value.Directory?;
    }

    /** `is_dir(path)`: exists, and is a directory. */
    method IsDir(path: string) returns (b: bool)
      ensures b <==> IsDirAt(root, Components(path))
      ensures b ==> StatAt(root, Components(path)).Some? && !IsFileAt(root, Components(path))
    {
      var node, _ := TraverseTo(path);
      b := node.Some? && node.value.Directory?;
    }
  }
}

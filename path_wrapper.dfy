/**
 * py_utility/path_wrapper.py: the newer path helpers. `get_all_files`
 * adds an optional filter and a shallow mode, `get_current_folder_name`
 * always names the parent directory, and `get_previous_path` applies
 * `dirname` a fixed number of times. `get_all_directories` is the same
 * computation as `get_all_directory` in py_utility/path.py and is modelled
 * there.
 */
module PathWrapper {
  import opened Strings
  import opened PosixPath
  import opened Wrappers
  import opened FileTree
  import PathHelpers

  /**
   * `get_all_files(path_input, endswith, recursive)`: a file is returned on
   * its own; the recursive listing walks the tree, the shallow one lists
   * the direct entries that are files. Listing a path that does not exist
   * fails with `FileNotFoundError`; walking it yields nothing.
   */
  function GetAllFiles(fs: Node, pathInput: string, endswith: Option<string>, recursive: bool): (r: Result<seq<string>, OsError>)
    requires AbsNorm(pathInput)
    ensures r.Failure? <==> !recursive && Lookup(fs, Components(pathInput)).None?
    ensures r.Failure? ==> r.error == FileNotFound
  {
    if IsFile(fs, pathInput) then Success([pathInput])
    else if recursive then Success(WalkFiles(Walk(fs, pathInput), endswith))
    else match Lookup(fs, Components(pathInput))
      case None => Failure(FileNotFound)
      case Some(File(_)) => Failure(NotADirectory)
      case Some(Dir(_, ch)) => Success(JoinAll(pathInput, FilterNames(FileNames(ch), endswith)))
  }

  /** A file path is returned on its own, whatever the filter and the mode. */
  lemma FileShortCircuit(fs: Node, pathInput: string, endswith: Option<string>, recursive: bool)
    requires AbsNorm(pathInput) && IsFile(fs, pathInput)
    ensures GetAllFiles(fs, pathInput, endswith, recursive) == Success([pathInput])
  {
  }

  /** The recursive listing is the listing of py_utility/path.py, with `None` meaning no filter. */
  lemma RecursiveIsWalk(fs: Node, pathInput: string, endswith: Option<string>)
    requires AbsNorm(pathInput)
    ensures GetAllFiles(fs, pathInput, endswith, true) == Success(PathHelpers.AllFiles(fs, pathInput, endswith))
  {
  }

  /**
   * The shallow listing of a directory in a well-formed tree holds each
   * direct entry that is a file and matches the filter, once, and nothing
   * else: no subdirectory ever appears.
   */
  lemma ShallowListing(fs: Node, cs: seq<string>, endswith: Option<string>)
    requires WellFormed(fs) && ValidComps(cs) && IsDirAt(fs, cs)
    ensures AbsNorm(Render(cs))
    ensures var r := GetAllFiles(fs, Render(cs), endswith, false);
      && r.Success?
      && Distinct(r.value)
      && forall n :: ValidName(n) ==>
           (Render(cs + [n]) in r.value <==> IsFileAt(fs, cs + [n]) && Matches(n, endswith))
  {
    ComponentsRender(cs);
    var d := Lookup(fs, cs).value;
    var names := FilterNames(FileNames(d.children), endswith);
    LookupWellFormed(fs, cs);
    NamesValid(d);
    FileNamesDistinct(d.children);
    FilterDistinct(FileNames(d.children), endswith);
    forall m | m in names
      ensures ValidName(m)
    {
      FilterNamesMem(FileNames(d.children), endswith, m);
    }
    JoinAllDistinct(cs, names);
    forall n | ValidName(n)
      ensures Render(cs + [n]) in JoinAll(Render(cs), names) <==> IsFileAt(fs, cs + [n]) && Matches(n, endswith)
    {
      JoinAllMem(cs, names, n);
      FilterNamesMem(FileNames(d.children), endswith, n);
      FileNamesLookup(d, n);
      LookupAppend(fs, cs, [n]);
    }
  }

  /** On a directory the shallow listing is the start of the recursive one: the walk's first step. */
  lemma ShallowPrefixOfRecursive(fs: Node, pathInput: string, endswith: Option<string>)
    requires AbsNorm(pathInput) && Lookup(fs, Components(pathInput)).Some?
    ensures var shallow, deep := GetAllFiles(fs, pathInput, endswith, false), GetAllFiles(fs, pathInput, endswith, true);
      shallow.Success? && deep.Success? && shallow.value <= deep.value
  {
    var d := Lookup(fs, Components(pathInput)).value;
    if d.Dir? && !IsFile(fs, pathInput) {
      WalkFilesFirst(pathInput, d, endswith);
    }
  }

  /** A path that does not exist: the shallow listing fails, the recursive one is empty. */
  lemma MissingPath(fs: Node, pathInput: string, endswith: Option<string>)
    requires AbsNorm(pathInput) && Lookup(fs, Components(pathInput)).None?
    ensures GetAllFiles(fs, pathInput, endswith, false) == Failure(FileNotFound)
    ensures GetAllFiles(fs, pathInput, endswith, true) == Success([])
  {
  }

  /** `get_current_folder_name`: the name of the directory holding the path, file or not ("" at the root). */
  function GetCurrentFolderName(path: string): (r: string)
    requires AbsNorm(path)
    ensures var cs := Components(path); r == if |cs| >= 2 then cs[|cs| - 2] else ""
  {
    PathHelpers.FolderNames(path);
    Basename(Dirname(path))
  }

  /**
   * The two `get_current_folder_name` variants agree on files and on the
   * root; on any other directory py_utility/path.py names the directory
   * itself and this one its parent, which differ unless both are called
   * the same.
   */
  lemma FolderNameVariants(fs: Node, path: string)
    requires AbsNorm(path)
    ensures var cs := Components(path);
      PathHelpers.GetCurrentFolderName(fs, path) == GetCurrentFolderName(path)
      <==> IsFile(fs, path) || cs == [] || (|cs| >= 2 && cs[|cs| - 2] == cs[|cs| - 1])
  {
    var cs := Components(path);
    if |cs| == 1 {
      assert ValidName(cs[0]);
    }
  }

  /**
   * `get_previous_path(path_input, previous)`: `dirname` of the absolute
   * path exactly `previous` times (none when `previous <= 0`); going past
   * the root stays at the root.
   */
  method GetPreviousPath(pathInput: string, previous: int) returns (path: string)
    requires AbsNorm(pathInput)
    ensures path == DirnameN(pathInput, previous)
    ensures path == Render(Up(Components(pathInput), previous))
  {
    path := DirnameTimes(pathInput, previous);
    PathHelpers.DirnameNPath(pathInput, previous);
  }

  /** The loop of `get_previous_path`: `dirname` exactly `previous` times. */
  method DirnameTimes(pathInput: string, previous: int) returns (path: string)
    ensures path == DirnameN(pathInput, previous)
  {
    path := pathInput;
    var times := if previous < 0 then 0 else previous;
    for i := 0 to times
      invariant DirnameN(path, times - i) == DirnameN(pathInput, previous)
    {
      PosixPath.DirnameNStep(path, times - i);
      path := Dirname(path);
    }
  }

  /** Going one level up from a file below a directory gives the directory. */
  lemma PreviousOfFile(dir: seq<string>, file: string)
    requires ValidComps(dir) && ValidName(file)
    ensures DirnameN(Render(dir + [file]), 1) == Render(dir)
  {
    assert ValidComps(dir + [file]) by { ValidAppend(dir, [file]); }
    DirnameNRender(dir + [file], 1);
    assert Up(dir + [file], 1) == dir;
  }
}

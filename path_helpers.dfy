/**
 * py_utility/path.py: listing files and directories, the containing
 * folder's name and walking up the directory tree. utils.py holds
 * identical copies of `get_all_files`, `get_current_folder_name` and
 * `get_previous_path`, which the members here model as well.
 */
module PathHelpers {
  import opened Strings
  import opened PosixPath
  import opened Wrappers
  import opened FileTree

  /**
   * What `get_all_files` returns: the path itself for a file, whatever the
   * filter, otherwise the matching files of its walk. A path that does not
   * exist lists nothing: its walk is empty.
   */
  function AllFiles(fs: Node, pathInput: string, endswith: Option<string>): (r: seq<string>)
    requires AbsNorm(pathInput)
    ensures IsFile(fs, pathInput) ==> r == [pathInput]
    ensures Lookup(fs, Components(pathInput)).None? ==> r == []
  {
    if IsFile(fs, pathInput) then [pathInput] else WalkFiles(Walk(fs, pathInput), endswith)
  }

  lemma {:induction false} FilterNamesSnoc(names: seq<string>, n: string, endswith: Option<string>)
    ensures FilterNames(names + [n], endswith)
         == FilterNames(names, endswith) + (if Matches(n, endswith) then [n] else [])
    decreases |names|
  {
    var tail := if Matches(n, endswith) then [n] else [];
    if names != [] {
      var head := if Matches(names[0], endswith) then [names[0]] else [];
      var s := names + [n];
      assert s[0] == names[0] && s[1..] == names[1..] + [n];
      FilterNamesUnfold(s, endswith);
      FilterNamesUnfold(names, endswith);
      FilterNamesSnoc(names[1..], n, endswith);
      assert head + (FilterNames(names[1..], endswith) + tail) == (head + FilterNames(names[1..], endswith)) + tail;
    } else {
      assert names + [n] == [n];
      FilterNamesUnfold([n], endswith);
      assert [n][1..] == [];
    }
  }

  lemma FilterNamesUnfold(s: seq<string>, endswith: Option<string>)
    requires s != []
    ensures FilterNames(s, endswith) == (if Matches(s[0], endswith) then [s[0]] else []) + FilterNames(s[1..], endswith)
  {
  }


  /** One more name of a walk step: its joined path is appended when it matches. */
  lemma StepFilesSnoc(root: string, names: seq<string>, k: nat, endswith: Option<string>)
    requires k < |names|
    ensures JoinAll(root, FilterNames(names[..k + 1], endswith))
         == JoinAll(root, FilterNames(names[..k], endswith)) + (if Matches(names[k], endswith) then [Join(root, names[k])] else [])
  {
    assert names[..k + 1] == names[..k] + [names[k]];
    FilterNamesSnoc(names[..k], names[k], endswith);
  }

  lemma WalkFilesSnoc(steps: seq<WalkStep>, s: nat, endswith: Option<string>)
    requires s < |steps|
    ensures WalkFiles(steps[..s + 1], endswith) == WalkFiles(steps[..s], endswith) + StepFiles(steps[s], endswith)
  {
    assert steps[..s + 1] == steps[..s] + [steps[s]];
    WalkFilesAppend(steps[..s], [steps[s]], endswith);
    assert WalkFiles([steps[s]], endswith) == StepFiles(steps[s], endswith) + WalkFiles([], endswith);
  }

  /**
   * `get_all_files(path_input, endswith)`: a file is returned on its own,
   * whatever the filter; otherwise every `os.path.join(root, file)` of the
   * walk whose file name ends with `endswith` is appended in walk order.
   */
  method GetAllFiles(fs: Node, pathInput: string, endswith: string) returns (bufferFiles: seq<string>)
    requires AbsNorm(pathInput)
    ensures bufferFiles == AllFiles(fs, pathInput, Some(endswith))
  {
    if IsFile(fs, pathInput) {
      return [pathInput];
    }
    var steps := Walk(fs, pathInput);
    bufferFiles := [];
    var s := 0;
    while s < |steps|
      invariant 0 <= s <= |steps|
      invariant bufferFiles == WalkFiles(steps[..s], Some(endswith))
    {
      var stepFiles := MatchingFiles(steps[s].root, steps[s].files, endswith);
      bufferFiles := bufferFiles + stepFiles;
      WalkFilesSnoc(steps, s, Some(endswith));
      s := s + 1;
    }
    assert steps[..s] == steps;
  }
  /** The inner loop of `get_all_files`: the files of one walk step whose name ends with `endswith`, joined to its root. */
  method MatchingFiles(root: string, files: seq<string>, endswith: string) returns (r: seq<string>)
    ensures r == JoinAll(root, FilterNames(files, Some(endswith)))
  {
    r := [];
    var k := 0;
    while k < |files|
      invariant 0 <= k <= |files|
      invariant r == JoinAll(root, FilterNames(files[..k], Some(endswith)))
    {
      var file := files[k];
      StepFilesSnoc(root, files, k, Some(endswith));
      if EndsWith(file, endswith) {
        r := r + [Join(root, file)];
      }
      k := k + 1;
    }
    assert files[..k] == files;
  }

  /**
   * On a directory of a well-formed tree, `get_all_files` lists every file
   * anywhere below it whose name matches the filter, each exactly once,
   * and nothing else (in particular no directory).
   */
  lemma AllFilesOfDirectory(fs: Node, cs: seq<string>, endswith: Option<string>)
    requires WellFormed(fs) && ValidComps(cs) && IsDirAt(fs, cs)
    ensures AbsNorm(Render(cs))
    ensures var out := AllFiles(fs, Render(cs), endswith);
      && Distinct(out)
      && forall rel :: ValidComps(rel) ==>
           (Render(cs + rel) in out <==> rel != [] && IsFileAt(fs, cs + rel) && Matches(rel[|rel| - 1], endswith))
  {
    ComponentsRender(cs);
    WalkListing(fs, cs, endswith);
  }

  /**
   * `get_current_folder_name`: for a file, the name of the directory holding
   * it; for anything else, the path's own last component ("" at the root).
   */
  function GetCurrentFolderName(fs: Node, pathFile: string): (r: string)
    requires AbsNorm(pathFile)
    ensures var cs := Components(pathFile);
      r == if IsFile(fs, pathFile) then (if |cs| >= 2 then cs[|cs| - 2] else "")
           else (if cs == [] then "" else cs[|cs| - 1])
  {
    FolderNames(pathFile);
    if IsFile(fs, pathFile) then Basename(Dirname(pathFile)) else Basename(pathFile)
  }

  /** The basename of a path and of its parent, read off its components. */
  lemma FolderNames(p: string)
    requires AbsNorm(p)
    ensures var cs := Components(p);
      && Basename(p) == (if cs == [] then "" else cs[|cs| - 1])
      && Basename(Dirname(p)) == (if |cs| >= 2 then cs[|cs| - 2] else "")
  {
    var cs := Components(p);
    RenderComponents(p);
    BasenameRender(cs);
    DirnameRender(cs);
    var up := Up(cs, 1);
    ValidPrefix(cs, |up|);
    BasenameRender(up);
  }

  /** `dirname` at a fixed point stays there however often it is applied. */
  lemma {:induction false} DirnameNFixed(p: string, k: int)
    requires Dirname(p) == p
    ensures DirnameN(p, k) == p
    decreases k
  {
    if k > 0 {
      DirnameNFixed(p, k - 1);
    }
  }

  /**
   * `get_previous_path(dir, previous)`: unchanged when `previous < 1`;
   * otherwise `dirname` up to `previous` times, stopping early once it
   * returns its input. That is `previous` levels up, never above the root.
   */
  method GetPreviousPath(dir: string, previous: int) returns (r: string)
    requires AbsNorm(dir)
    ensures r == DirnameN(dir, previous)
    ensures r == Render(Up(Components(dir), previous))
  {
    r := dir;
    if previous >= 1 {
      r := DirnameUpTo(dir, previous);
    }
    DirnameNPath(dir, previous);
  }

  /** The loop of `get_previous_path`: `dirname` up to `previous` times, stopping at a fixed point. */
  method DirnameUpTo(dir: string, previous: nat) returns (r: string)
    ensures r == DirnameN(dir, previous)
  {
    r := dir;
    ghost var target := DirnameN(dir, previous);
    for i := 0 to previous
      invariant DirnameN(r, previous - i) == target
    {
      var stateDir := r;
      DirnameNStep(r, previous - i);
      r := Dirname(r);
      if stateDir == r {
        DirnameNFixed(r, previous - i - 1);
        return;
      }
    }
  }


  /** `dirname` applied `k` times to an absolute normalised path goes `k` levels up, never above the root. */
  lemma DirnameNPath(dir: string, k: int)
    requires AbsNorm(dir)
    ensures DirnameN(dir, k) == Render(Up(Components(dir), k))
  {
    RenderComponents(dir);
    DirnameNRender(Components(dir), k);
  }

  /**
   * `get_all_directory`: every entry of the directory that is itself a
   * directory, joined to the path. `os.listdir` fails on a missing path and
   * on a file.
   */
  function GetAllDirectory(fs: Node, pathInput: string): (r: Result<seq<string>, OsError>)
    requires AbsNorm(pathInput)
    ensures r.Success? <==> IsDir(fs, pathInput)
    ensures r.Failure? ==> r.error == if Lookup(fs, Components(pathInput)).None? then FileNotFound else NotADirectory
  {
    match Lookup(fs, Components(pathInput))
    case None => Failure(FileNotFound)
    case Some(File(_)) => Failure(NotADirectory)
    case Some(Dir(_, ch)) => Success(JoinAll(pathInput, DirNames(ch)))
  }

  /**
   * On a directory of a well-formed tree, `get_all_directory` lists the
   * subdirectories that are its direct entries, each once, and nothing else;
   * it fails exactly when the path is not a directory.
   */
  lemma AllDirectoryListing(fs: Node, cs: seq<string>)
    requires WellFormed(fs) && ValidComps(cs)
    ensures AbsNorm(Render(cs))
    ensures GetAllDirectory(fs, Render(cs)).Success? <==> IsDirAt(fs, cs)
    ensures Lookup(fs, cs).None? ==> GetAllDirectory(fs, Render(cs)) == Failure(FileNotFound)
    ensures IsFileAt(fs, cs) ==> GetAllDirectory(fs, Render(cs)) == Failure(NotADirectory)
    ensures var r := GetAllDirectory(fs, Render(cs));
      r.Success? ==> Distinct(r.value) && forall n :: ValidName(n) ==> (Render(cs + [n]) in r.value <==> IsDirAt(fs, cs + [n]))
  {
    ComponentsRender(cs);
    if IsDirAt(fs, cs) {
      var d := Lookup(fs, cs).value;
      LookupWellFormed(fs, cs);
      NamesValid(d);
      DirNamesDistinct(d.children);
      JoinAllDistinct(cs, DirNames(d.children));
      forall n | ValidName(n)
        ensures Render(cs + [n]) in JoinAll(Render(cs), DirNames(d.children)) <==> IsDirAt(fs, cs + [n])
      {
        JoinAllMem(cs, DirNames(d.children), n);
        DirNamesLookup(d, n);
        LookupAppend(fs, cs, [n]);
      }
    }
  }
}

/**
 * What the two MinIO clients share: `get_all_file_paths`, which lists a
 * directory's files together with their paths relative to it, and the
 * object names uploads give local files, `os.path.join(prefix, relative)`
 * with every backslash turned into '/'; and the local files downloads
 * write, `os.path.join(destination, object_name)`.
 */
module Transfer {
  import opened Strings
  import opened PosixPath
  import opened Wrappers
  import opened FileTree
  import opened ObjectStore

  /** `file[len(directory) + 1:]` for each file. */
  function RelativePaths(directory: string, files: seq<string>): (r: seq<string>)
    ensures |r| == |files|
  {
    seq(|files|, k requires 0 <= k < |files| => Drop(files[k], |directory| + 1))
  }

  /**
   * `get_all_file_paths(directory)` in pylabtools/minio_wrapper.py: the
   * files of the walk of `directory`, and the same files relative to it,
   * pair by pair. A file or a missing path has no files: its walk is empty.
   */
  function FilePaths(fs: Node, directory: string): (r: (seq<string>, seq<string>))
    requires AbsNorm(directory)
    ensures |r.0| == |r.1|
    ensures forall k :: 0 <= k < |r.1| ==> r.1[k] == Drop(r.0[k], |directory| + 1)
    ensures !IsDir(fs, directory) ==> r == ([], [])
  {
    var abs := WalkFiles(Walk(fs, directory), None);
    (abs, RelativePaths(directory, abs))
  }

  /** The object name of `rel` under `prefix`: `os.path.join(prefix, rel).replace("\\", "/")`. */
  function ObjectName(prefix: string, rel: string): string {
    ReplaceChar(Join(prefix, rel), '\\', '/')
  }

  /** The prefix a directory upload puts in front of relative paths: the directory's own name under `prefix`. */
  function DirectoryPrefix(prefix: string, directory: string): string {
    Join(prefix, Basename(directory))
  }

  /**
   * The uploads, as pairs of local file and object name, of the local path
   * `path`: every file below a directory under the directory's name, or the
   * path itself under its base name. No object name holds a backslash.
   */
  function Uploads(fs: Node, prefix: string, path: string): (r: seq<(string, string)>)
    requires AbsNorm(path)
    ensures IsDir(fs, path) ==> |r| == |FilePaths(fs, path).0| && forall k :: 0 <= k < |r| ==> r[k].0 == FilePaths(fs, path).0[k]
    ensures !IsDir(fs, path) ==> |r| == 1 && r[0].0 == path
    ensures forall k :: 0 <= k < |r| ==> '\\' !in r[k].1
  {
    if IsDir(fs, path) then
      var abs, rel := FilePaths(fs, path).0, FilePaths(fs, path).1;
      seq(|abs|, k requires 0 <= k < |abs| => (abs[k], ObjectName(DirectoryPrefix(prefix, path), rel[k])))
    else [(path, ObjectName(prefix, Basename(path)))]
  }

  lemma ReplaceAppend(a: string, b: string)
    ensures ReplaceChar(a + b, '\\', '/') == ReplaceChar(a, '\\', '/') + ReplaceChar(b, '\\', '/')
  {
    var l, r := ReplaceChar(a + b, '\\', '/'), ReplaceChar(a, '\\', '/') + ReplaceChar(b, '\\', '/');
    assert forall i :: 0 <= i < |l| ==> l[i] == r[i];
  }

  lemma ReplaceNone(s: string)
    requires '\\' !in s
    ensures ReplaceChar(s, '\\', '/') == s
  {
  }

  /**
   * A relative path that does not start with '/' is appended to what
   * `os.path.join(prefix, "")` gives: the prefix, with a '/' unless it is
   * empty or already ends with one.
   */
  lemma ObjectNameSplit(prefix: string, rel: string)
    requires rel == "" || rel[0] != '/'
    ensures ObjectName(prefix, rel) == ObjectName(prefix, "") + ReplaceChar(rel, '\\', '/')
  {
    assert Join(prefix, rel) == Join(prefix, "") + rel;
    ReplaceAppend(Join(prefix, ""), rel);
  }

  /** Object names keep no backslash: a backslash in a file name becomes a '/'. */
  lemma ObjectNameSlashes(prefix: string, rel: string)
    ensures '\\' !in ObjectName(prefix, rel)
    ensures forall i :: 0 <= i < |rel| && rel[i] == '\\' ==> ObjectName(prefix, rel)[|ObjectName(prefix, rel)| - |rel| + i] == '/'
  {
    if rel != "" && rel[0] == '/' {
      assert Join(prefix, rel) == rel;
    } else {
      ObjectNameSplit(prefix, rel);
    }
  }

  /**
   * The object names of a file called `a\b` and of a file `b` in a
   * directory `a` are the same, so one upload replaces the other.
   */
  lemma BackslashCollision(prefix: string, a: string, b: string)
    requires ValidName(a) && ValidName(b)
    ensures a + "\\" + b != a + "/" + b
    ensures ObjectName(prefix, a + "\\" + b) == ObjectName(prefix, a + "/" + b)
  {
    var s1, s2 := a + "\\" + b, a + "/" + b;
    assert s1[|a|] != s2[|a|];
    assert s1[0] == a[0] && s2[0] == a[0];
    ObjectNameSplit(prefix, s1);
    ObjectNameSplit(prefix, s2);
    ReplaceAppend(a + "\\", b);
    ReplaceAppend(a + "/", b);
    ReplaceAppend(a, "\\");
    ReplaceAppend(a, "/");
    assert ReplaceChar("\\", '\\', '/') == "/" == ReplaceChar("/", '\\', '/');
  }

  /** The object names of the relative paths `rels` under `prefix`, in order. */
  function ObjectNames(prefix: string, rels: seq<string>): (r: seq<string>)
    ensures |r| == |rels|
  {
    seq(|rels|, k requires 0 <= k < |rels| => ObjectName(prefix, rels[k]))
  }

  /** Distinct relative paths without backslashes, none starting with '/', get distinct object names. */
  lemma ObjectNamesDistinct(prefix: string, rels: seq<string>)
    requires Distinct(rels)
    requires forall k :: 0 <= k < |rels| ==> '\\' !in rels[k] && (rels[k] == "" || rels[k][0] != '/')
    ensures Distinct(ObjectNames(prefix, rels))
  {
    var head := ObjectName(prefix, "");
    forall k | 0 <= k < |rels|
      ensures ObjectName(prefix, rels[k]) == head + rels[k]
    {
      ObjectNameSplit(prefix, rels[k]);
      ReplaceNone(rels[k]);
    }
    forall i, j | 0 <= i < j < |rels|
      ensures head + rels[i] != head + rels[j]
    {
      assert (head + rels[i])[|head|..] == rels[i];
      assert (head + rels[j])[|head|..] == rels[j];
    }
  }
  /** The local files of an upload plan. */
  function Locals(plan: seq<(string, string)>): seq<string> {
    seq(|plan|, k requires 0 <= k < |plan| => plan[k].0)
  }

  /** The object names of an upload plan. */
  function Names(plan: seq<(string, string)>): seq<string> {
    seq(|plan|, k requires 0 <= k < |plan| => plan[k].1)
  }

  /** A relative path of valid components neither is empty nor starts with '/'. */
  lemma RelPathHead(rel: seq<string>)
    requires ValidComps(rel) && rel != []
    ensures |RelPath(rel)| > 0 && RelPath(rel)[0] != '/'
  {
    assert ValidName(rel[0]);
    if |rel| > 1 {
      assert RelPath(rel) == rel[0] + "/" + RelPath(rel[1..]);
    }
  }

  /** The relative path of one file below the directory `Render(cs)`. */
  lemma RelativeOne(cs: seq<string>, r: seq<string>)
    requires ValidComps(cs) && ValidComps(r) && r != []
    ensures var rel := Drop(Render(cs + r), |Render(cs)| + 1);
      && rel == (if cs == [] then Drop(RelPath(r), 1) else RelPath(r))
      && (cs != [] ==> Render(cs + r) == Render(cs) + "/" + rel)
  {
    var p, d, t := Render(cs + r), Render(cs), RelPath(r);
    RenderAppend(cs, r);
    if cs == [] {
      assert p == "/" + t;
      if t != "" {
        assert p[2..] == t[1..];
      }
    } else {
      assert p == d + "/" + t;
      assert p[|d| + 1..] == t;
    }
  }

  /**
   * `get_all_file_paths` on a directory lists every file below it (see
   * `FileTree.WalkListing`) as that directory, a '/' and the relative path;
   * for the root "/" the relative path loses its first character, because
   * `len(directory) + 1` then counts one character too many.
   */
  lemma FilePathsOfDirectory(fs: Node, directory: string)
    requires WellFormed(fs) && AbsNorm(directory) && IsDir(fs, directory)
    ensures var cs := Components(directory);
      var files := Files(Lookup(fs, cs).value, None);
      var abs, rel := FilePaths(fs, directory).0, FilePaths(fs, directory).1;
      && |abs| == |files| && |rel| == |files|
      && (forall k :: 0 <= k < |files| ==> abs[k] == Render(cs + files[k]))
      && (cs == [] ==> forall k :: 0 <= k < |files| ==> rel[k] == Drop(RelPath(files[k]), 1))
      && (cs != [] ==> forall k :: 0 <= k < |files| ==> rel[k] == RelPath(files[k]))
      && (cs != [] ==> forall k :: 0 <= k < |files| ==> abs[k] == directory + "/" + rel[k])
  {
    var cs := Components(directory);
    var d := Lookup(fs, cs).value;
    var files := Files(d, None);
    RenderComponents(directory);
    LookupWellFormed(fs, cs);
    WalkRender(cs, d, None);
    FilesNonEmpty(d, None);
    var abs := WalkFiles(Walk(fs, directory), None);
    assert abs == RenderAll(cs, files);
    var rel := RelativePaths(directory, abs);
    forall k | 0 <= k < |files|
      ensures rel[k] == if cs == [] then Drop(RelPath(files[k]), 1) else RelPath(files[k])
      ensures cs != [] ==> abs[k] == directory + "/" + rel[k]
    {
      FilesValid(d, None, files[k]);
      RelativeOne(cs, files[k]);
    }
  }

  /**
   * Uploading a directory other than the root uploads each file below it,
   * as the directory's name under `prefix` followed by the file's path
   * below the directory.
   */
  lemma UploadsOfDirectory(fs: Node, prefix: string, directory: string)
    requires WellFormed(fs) && AbsNorm(directory) && IsDir(fs, directory) && directory != "/"
    ensures Components(directory) != []
    ensures |Uploads(fs, prefix, directory)| == |DirFiles(fs, directory)|
    ensures forall k :: 0 <= k < |DirFiles(fs, directory)| ==>
      Uploads(fs, prefix, directory)[k]
        == (Render(Components(directory) + DirFiles(fs, directory)[k]),
            ObjectName(Join(prefix, Last(Components(directory))), RelPath(DirFiles(fs, directory)[k])))
  {
    var cs := Components(directory);
    var files := DirFiles(fs, directory);
    var plan := Uploads(fs, prefix, directory);
    var abs, rel := FilePaths(fs, directory).0, FilePaths(fs, directory).1;
    assert cs != [] by {
      RenderComponents(directory);
    }
    var under := Join(prefix, Last(cs));
    assert DirectoryPrefix(prefix, directory) == under by {
      BasenameRender(cs);
      RenderComponents(directory);
    }
    assert |plan| == |abs| && forall k :: 0 <= k < |abs| ==> plan[k] == (abs[k], ObjectName(under, rel[k])) by {
      UploadsPlan(fs, prefix, directory);
    }
    assert |abs| == |files| && |rel| == |files|
        && (forall k :: 0 <= k < |files| ==> abs[k] == Render(cs + files[k]))
        && (forall k :: 0 <= k < |files| ==> rel[k] == RelPath(files[k])) by {
      FilePathsOfDirectory(fs, directory);
    }
    forall k | 0 <= k < |files|
      ensures plan[k] == (Render(cs + files[k]), ObjectName(under, RelPath(files[k])))
    {
      assert plan[k] == (abs[k], ObjectName(under, rel[k]));
    }
  }

  /**
   * Uploading a directory other than the root uploads each file exactly
   * once, and when no relative path holds a backslash no two files get the
   * same object name.
   */
  lemma UploadsOfDirectoryDistinct(fs: Node, prefix: string, directory: string)
    requires WellFormed(fs) && AbsNorm(directory) && IsDir(fs, directory) && directory != "/"
    ensures Distinct(Locals(Uploads(fs, prefix, directory)))
    ensures NoBackslashes(DirFiles(fs, directory)) ==> Distinct(Names(Uploads(fs, prefix, directory)))
  {
    var cs := Components(directory);
    var files := Files(Lookup(fs, cs).value, None);
    var plan := Uploads(fs, prefix, directory);
    var abs, rel := FilePaths(fs, directory).0, FilePaths(fs, directory).1;
    var under := DirectoryPrefix(prefix, directory);
    assert |plan| == |abs| == |rel| && forall k :: 0 <= k < |abs| ==> plan[k] == (abs[k], ObjectName(under, rel[k])) by {
      UploadsPlan(fs, prefix, directory);
    }
    PlanDistinct(plan, abs, under, rel);
    FilePathsDistinct(fs, directory);
    if NoBackslashes(files) {
      DirectoryNamesDistinct(fs, directory, under);
    }
  }

  /** The files below the directory `directory`, as component lists relative to it, in walk order. */
  function DirFiles(fs: Node, directory: string): seq<seq<string>>
    requires AbsNorm(directory) && IsDir(fs, directory)
  {
    Files(Lookup(fs, Components(directory)).value, None)
  }

  /** The last element of a non-empty sequence. */
  function Last<T>(s: seq<T>): T
    requires s != []
  {
    s[|s| - 1]
  }

  /** No relative path of the files holds a backslash. */
  predicate NoBackslashes(files: seq<seq<string>>) {
    forall k :: 0 <= k < |files| ==> '\\' !in RelPath(files[k])
  }

  /** A plan built pointwise from local files and relative paths is as distinct as they are. */
  lemma PlanDistinct(plan: seq<(string, string)>, abs: seq<string>, under: string, rel: seq<string>)
    requires |plan| == |abs| == |rel|
    requires forall k :: 0 <= k < |abs| ==> plan[k] == (abs[k], ObjectName(under, rel[k]))
    ensures Distinct(abs) ==> Distinct(Locals(plan))
    ensures Distinct(ObjectNames(under, rel)) ==> Distinct(Names(plan))
  {
    assert Locals(plan) == abs;
    assert Names(plan) == ObjectNames(under, rel);
  }

  /** The walk of a directory lists no file twice. */
  lemma FilePathsDistinct(fs: Node, directory: string)
    requires WellFormed(fs) && AbsNorm(directory) && IsDir(fs, directory)
    ensures Distinct(FilePaths(fs, directory).0)
  {
    var cs := Components(directory);
    RenderComponents(directory);
    WalkListing(fs, cs, None);
    assert Walk(fs, directory) == OsWalk(Render(cs), Lookup(fs, cs).value);
  }

  /** Below a directory other than the root, files whose relative paths hold no backslash get distinct object names. */
  lemma DirectoryNamesDistinct(fs: Node, directory: string, under: string)
    requires WellFormed(fs) && AbsNorm(directory) && IsDir(fs, directory) && directory != "/"
    requires NoBackslashes(DirFiles(fs, directory))
    ensures Distinct(ObjectNames(under, FilePaths(fs, directory).1))
  {
    var cs := Components(directory);
    var d := Lookup(fs, cs).value;
    var files := Files(d, None);
    var abs, rel := FilePaths(fs, directory).0, FilePaths(fs, directory).1;
    assert cs != [] by {
      RenderComponents(directory);
    }
    FilePathsOfDirectory(fs, directory);
    FilePathsDistinct(fs, directory);
    LookupWellFormed(fs, cs);
    FilesNonEmpty(d, None);
    forall k | 0 <= k < |rel|
      ensures '\\' !in rel[k] && (rel[k] == "" || rel[k][0] != '/')
    {
      FilesValid(d, None, files[k]);
      RelPathHead(files[k]);
    }
    forall i, j | 0 <= i < j < |rel|
      ensures rel[i] != rel[j]
    {
      assert abs[i] != abs[j];
    }
    ObjectNamesDistinct(under, rel);
  }


  /** Uploading a single file puts it under its own name below `prefix`. */
  lemma UploadsOfFile(fs: Node, prefix: string, cs: seq<string>)
    requires ValidComps(cs) && cs != [] && IsFileAt(fs, cs)
    ensures AbsNorm(Render(cs))
    ensures Uploads(fs, prefix, Render(cs)) == [(Render(cs), ObjectName(prefix, cs[|cs| - 1]))]
  {
    ComponentsRender(cs);
    BasenameRender(cs);
  }
  /**
   * The local files a download of the listed `names` writes, in order: each
   * name that is an object is saved at `os.path.join(destination, name)`;
   * a name that is not an object (a "directory" of a listing) is not.
   */
  function Downloads(objects: Objects, destination: string, names: seq<string>): (r: seq<(string, string)>)
    ensures |r| <= |names|
    ensures forall p :: p in r ==> exists n :: n in names && n in objects && p == (Join(destination, n), objects[n])
    decreases |names|
  {
    if names == [] then []
    else
      var n := names[|names| - 1];
      assert forall m :: m in names[..|names| - 1] ==> m in names;
      assert n in names;
      Downloads(objects, destination, names[..|names| - 1])
        + (if n in objects then [(Join(destination, n), objects[n])] else [])
  }

  /** Saving one more listed name extends the local files by that object, if it is one. */
  lemma DownloadsStep(objects: Objects, destination: string, names: seq<string>, j: nat, disk: Objects)
    requires j < |names|
    ensures WriteAll(disk, Downloads(objects, destination, names[..j + 1]))
         == if names[j] in objects
            then WriteAll(disk, Downloads(objects, destination, names[..j]))[Join(destination, names[j]) := objects[names[j]]]
            else WriteAll(disk, Downloads(objects, destination, names[..j]))
  {
    var prev := Downloads(objects, destination, names[..j]);
    var w := Downloads(objects, destination, names[..j + 1]);
    assert names[..j + 1][..j] == names[..j];
    if names[j] in objects {
      assert w == prev + [(Join(destination, names[j]), objects[names[j]])];
      assert w[..|w| - 1] == prev;
    } else {
      assert w == prev + [];
      assert w == prev;
    }
  }

  /** The plan of a directory pairs each listed file with its object name. */
  lemma UploadsPlan(fs: Node, prefix: string, path: string)
    requires AbsNorm(path)
    ensures var plan := Uploads(fs, prefix, path);
      var abs, rel := FilePaths(fs, path).0, FilePaths(fs, path).1;
      if IsDir(fs, path)
      then |plan| == |abs| && forall k :: 0 <= k < |abs| ==> plan[k] == (abs[k], ObjectName(DirectoryPrefix(prefix, path), rel[k]))
      else plan == [(path, ObjectName(prefix, Basename(path)))]
  {
  }

  /** Names that do not start with '/' are joined to a destination one-to-one. */
  lemma JoinInjective(destination: string, a: string, b: string)
    requires a == "" || a[0] != '/'
    requires b == "" || b[0] != '/'
    ensures Join(destination, a) == Join(destination, b) <==> a == b
  {
    var head := Join(destination, "");
    assert Join(destination, a) == head + a;
    assert Join(destination, b) == head + b;
    if head + a == head + b {
      assert (head + a)[|head|..] == a;
      assert (head + b)[|head|..] == b;
    }
  }

  /** A download saves exactly the listed names that are objects, each with the object's data. */
  lemma {:induction false} DownloadsMem(objects: Objects, destination: string, names: seq<string>, p: (string, string))
    ensures p in Downloads(objects, destination, names) <==>
      exists k :: 0 <= k < |names| && names[k] in objects && p == (Join(destination, names[k]), objects[names[k]])
    decreases |names|
  {
    if names != [] {
      var m := |names| - 1;
      var pre, n := names[..m], names[m];
      var last := if n in objects then [(Join(destination, n), objects[n])] else [];
      assert Downloads(objects, destination, names) == Downloads(objects, destination, pre) + last;
      DownloadsMem(objects, destination, pre, p);
      if p in Downloads(objects, destination, names) && p !in last {
        var k :| 0 <= k < m && pre[k] in objects && p == (Join(destination, pre[k]), objects[pre[k]]);
        assert names[k] == pre[k];
      }
      if exists k :: 0 <= k < |names| && names[k] in objects && p == (Join(destination, names[k]), objects[names[k]]) {
        var k :| 0 <= k < |names| && names[k] in objects && p == (Join(destination, names[k]), objects[names[k]]);
        if k < m {
          assert pre[k] == names[k];
        }
      }
    }
  }

  /** Distinct names that do not start with '/' are saved to distinct local files. */
  lemma {:induction false} DownloadsDistinct(objects: Objects, destination: string, names: seq<string>)
    requires Distinct(names)
    requires forall k :: 0 <= k < |names| ==> names[k] == "" || names[k][0] != '/'
    ensures NamesDistinct(Downloads(objects, destination, names))
    decreases |names|
  {
    if names != [] {
      var m := |names| - 1;
      var pre, n := names[..m], names[m];
      var before := Downloads(objects, destination, pre);
      DownloadsDistinct(objects, destination, pre);
      if n in objects {
        forall i | 0 <= i < |before|
          ensures before[i].0 != Join(destination, n)
        {
          DownloadsMem(objects, destination, pre, before[i]);
          var k :| 0 <= k < |pre| && pre[k] in objects && before[i] == (Join(destination, pre[k]), objects[pre[k]]);
          assert pre[k] == names[k] != n;
          JoinInjective(destination, pre[k], n);
        }
      }
    }
  }
}

/**
 * pylabtools/minio_wrapper.py: `MinioWrapper` uploads a file or every file
 * of a directory, one `upload_file` task per file run by a process pool,
 * and downloads a listing with a thread pool, or a single object.
 *
 * A pool runs its tasks in an order the model does not fix: `Upload` and
 * `DownloadFiles` take the order in which the tasks take effect as a
 * parameter `run`, any arrangement of the tasks, and the lemmas below
 * state what does not depend on it.
 */
module LabMinio {
  import opened Strings
  import opened PosixPath
  import opened Wrappers
  import opened FileTree
  import opened ObjectStore
  import opened Transfer

  /** The tuple `upload_file` receives: the server's address and keys, the bucket, the local file and its object name. */
  datatype UploadTask = UploadTask(
    endpoint: string, accessKey: Option<string>, secretKey: Option<string>,
    bucket: string, local: string, remote: string)

  /** Whether the task's `fput_object` succeeds. */
  predicate Uploaded(buckets: Buckets, task: UploadTask, faults: map<string, string>) {
    PutError(buckets, task.bucket, FaultOf(faults, task.local)).None?
  }

  /**
   * What `upload_file` returns: "Success" exactly when the put succeeds,
   * and otherwise a message naming the local path and the error, which is
   * never "Success", so that `Errors` keeps exactly the failed uploads.
   */
  function UploadResult(buckets: Buckets, task: UploadTask, faults: map<string, string>): (r: string)
    ensures r == "Success" <==> Uploaded(buckets, task, faults)
    ensures r != "Success" ==> StartsWith(r, "Upload Error for " + task.local + " : ")
  {
    var err := PutError(buckets, task.bucket, FaultOf(faults, task.local));
    if err.None? then "Success"
    else
      var message := "Upload Error for " + task.local + " : " + err.value;
      assert message[0] == 'U';
      message
  }

  /** The results of the tasks of `run`, in that order. */
  function Results(buckets: Buckets, run: seq<UploadTask>, faults: map<string, string>): (r: seq<string>)
    ensures |r| == |run|
  {
    seq(|run|, j requires 0 <= j < |run| => UploadResult(buckets, run[j], faults))
  }

  /** `[result for result in results if result != "Success"]`. */
  function Errors(results: seq<string>): (errors: seq<string>)
    ensures forall e :: e in errors <==> e in results && e != "Success"
  {
    if results == [] then []
    else (if results[0] != "Success" then [results[0]] else []) + Errors(results[1..])
  }

  /** The objects the tasks of `run` write, in that order: one per task whose upload succeeds. */
  function Written(buckets: Buckets, run: seq<UploadTask>, faults: map<string, string>): seq<(string, string)>
    decreases |run|
  {
    if run == [] then []
    else
      var t := run[|run| - 1];
      Written(buckets, run[..|run| - 1], faults)
        + (if Uploaded(buckets, t, faults) then [(t.remote, t.local)] else [])
  }

  /** No two tasks upload to the same object name. */
  predicate RemotesDistinct(tasks: seq<UploadTask>) {
    forall i, j :: 0 <= i < j < |tasks| ==> tasks[i].remote != tasks[j].remote
  }

  class MinioWrapper {
    const endpoint: string
    const accessKey: Option<string>
    const secretKey: Option<string>
    const secure: bool
    /** The server `minio_client` is connected to. */
    const minioClient: Server

    constructor (endpoint: string, accessKey: Option<string>, secretKey: Option<string>, secure: bool, server: Server)
      ensures this.endpoint == endpoint && this.accessKey == accessKey && this.secretKey == secretKey
      ensures this.secure == secure && minioClient == server
    {
      this.endpoint := endpoint;
      this.accessKey := accessKey;
      this.secretKey := secretKey;
      this.secure := secure;
      minioClient := server;
    }

    /** The `upload_args` of `upload`: one task per planned upload, in plan order. */
    function Tasks(fs: Node, bucket: string, path: string, prefix: string): (tasks: seq<UploadTask>)
      requires AbsNorm(path)
      ensures forall t :: t in tasks ==> t.bucket == bucket
      ensures |tasks| == |Uploads(fs, prefix, path)|
      ensures forall k :: 0 <= k < |tasks| ==> (tasks[k].local, tasks[k].remote) == Uploads(fs, prefix, path)[k]
    {
      var plan := Uploads(fs, prefix, path);
      seq(|plan|, k requires 0 <= k < |plan| => UploadTask(endpoint, accessKey, secretKey, bucket, plan[k].0, plan[k].1))
    }

    /**
     * `upload_file(args)`: a new client for the same server puts the local
     * file under its object name; any error is caught and reported in the
     * returned string.
     */
    static method UploadFile(server: Server, task: UploadTask, faults: map<string, string>) returns (result: string)
      modifies server
      ensures result == UploadResult(old(server.buckets), task, faults)
      ensures server.buckets == Put(old(server.buckets), task.bucket, task.remote, task.local, FaultOf(faults, task.local))
      ensures server.disk == old(server.disk)
    {
      var err := server.FPutObject(task.bucket, task.remote, task.local, FaultOf(faults, task.local));
      if err.None? {
        result := "Success";
      } else {
        result := "Upload Error for " + task.local + " : " + err.value;
      }
    }

    /**
     * `upload(bucket_name, path_local_upload, prefix)`: runs the tasks in the
     * order `run` and returns the error results it logs. The bucket is not
     * created: when it is missing every upload fails. Up to order, what is
     * logged does not depend on `run`.
     */
    method Upload(fs: Node, bucket: string, pathLocalUpload: string, prefix: string,
                  run: seq<UploadTask>, faults: map<string, string>) returns (logged: seq<string>)
      requires AbsNorm(pathLocalUpload)
      requires multiset(run) == multiset(Tasks(fs, bucket, pathLocalUpload, prefix))
      modifies minioClient
      ensures logged == Errors(Results(old(minioClient.buckets), run, faults))
      ensures multiset(logged)
           == multiset(Errors(Results(old(minioClient.buckets), Tasks(fs, bucket, pathLocalUpload, prefix), faults)))
      ensures minioClient.buckets
           == if bucket in old(minioClient.buckets)
              then old(minioClient.buckets)[bucket := WriteAll(old(minioClient.buckets)[bucket], Written(old(minioClient.buckets), run, faults))]
              else old(minioClient.buckets)
      ensures minioClient.disk == old(minioClient.disk)
    {
      var uploadArgs := Tasks(fs, bucket, pathLocalUpload, prefix);
      assert forall t :: t in run ==> t.bucket == bucket by {
        forall t | t in run
          ensures t.bucket == bucket
        {
          assert t in multiset(uploadArgs);
        }
      }
      ghost var before := minioClient.buckets;
      var results := RunUploads(bucket, run, faults);
      logged := Errors(results);
      ResultsMultiset(before, run, uploadArgs, faults);
      ErrorsMultiset(Results(before, run, faults), Results(before, uploadArgs, faults));
    }

    /**
     * The pool's map of `upload_file` over the tasks, in the order `run`:
     * each task's result, and the objects the successful ones wrote.
     */
    method RunUploads(bucket: string, run: seq<UploadTask>, faults: map<string, string>) returns (results: seq<string>)
      requires forall t :: t in run ==> t.bucket == bucket
      modifies minioClient
      ensures results == Results(old(minioClient.buckets), run, faults)
      ensures minioClient.buckets
           == if bucket in old(minioClient.buckets)
              then old(minioClient.buckets)[bucket := WriteAll(old(minioClient.buckets)[bucket], Written(old(minioClient.buckets), run, faults))]
              else old(minioClient.buckets)
      ensures minioClient.disk == old(minioClient.disk)
    {
      ghost var before := minioClient.buckets;
      results := [];
      var j := 0;
      while j < |run|
        invariant 0 <= j <= |run|
        invariant results == Results(before, run[..j], faults)
        invariant minioClient.buckets
               == if bucket in before then before[bucket := WriteAll(before[bucket], Written(before, run[..j], faults))] else before
        invariant minioClient.disk == old(minioClient.disk)
      {
        var task := run[j];
        UploadStep(before, minioClient.buckets, bucket, run, j, faults);
        var r := UploadFile(minioClient, task, faults);
        results := results + [r];
        j := j + 1;
      }
      assert run[..j] == run;
    }

    /**
     * `download_files(bucket_name, prefix, recursive, destination_path)`:
     * every listed name is fetched to `os.path.join(destination_path, name)`
     * in the order `run`, any arrangement of the listing. A failed fetch is
     * dropped silently; a missing bucket makes the listing fail. Before
     * listing, `os.makedirs(destination_path, exist_ok=True)` fails on the
     * default destination "" with `FileNotFoundError`, so nothing is
     * downloaded then.
     */
    method DownloadFiles(bucket: string, prefix: string, recursive: bool, destinationPath: string,
                         run: seq<string>) returns (err: Option<string>)
      requires bucket in minioClient.buckets ==> Distinct(run)
      requires bucket in minioClient.buckets ==>
        forall n :: n in run <==> n in Listed(minioClient.buckets[bucket], prefix, recursive)
      modifies minioClient
      ensures err == if destinationPath == "" then Some("FileNotFoundError")
                     else if bucket in old(minioClient.buckets) then None
                     else Some("NoSuchBucket")
      ensures minioClient.buckets == old(minioClient.buckets)
      ensures minioClient.disk
           == if err.None?
              then WriteAll(old(minioClient.disk), Downloads(minioClient.buckets[bucket], destinationPath, run))
              else old(minioClient.disk)
    {
      if destinationPath == "" {
        return Some("FileNotFoundError");
      }
      if bucket !in minioClient.buckets {
        return Some("NoSuchBucket");
      }
      err := None;
      var objects := minioClient.buckets[bucket];
      var j := 0;
      while j < |run|
        invariant 0 <= j <= |run|
        invariant minioClient.buckets == old(minioClient.buckets)
        invariant minioClient.disk == WriteAll(old(minioClient.disk), Downloads(objects, destinationPath, run[..j]))
      {
        var destFilePath := Join(destinationPath, run[j]);
        var fetchError := minioClient.FGetObject(bucket, run[j], destFilePath);
        DownloadsStep(objects, destinationPath, run, j, old(minioClient.disk));
        j := j + 1;
      }
      assert run[..j] == run;
    }

    /**
     * `download_file(bucket_name, file_name, file_output)`: the object is
     * saved under `file_output` whenever one is given, even an empty one,
     * and under its own name otherwise.
     */
    method DownloadFile(bucket: string, fileName: string, fileOutput: Option<string>) returns (err: Option<string>)
      modifies minioClient
      ensures err == GetError(old(minioClient.buckets), bucket, fileName)
      ensures minioClient.buckets == old(minioClient.buckets)
      ensures minioClient.disk
           == if err.None?
              then old(minioClient.disk)[(if fileOutput.Some? then fileOutput.value else fileName) := minioClient.buckets[bucket][fileName]]
              else old(minioClient.disk)
    {
      var fileOutputName := fileName;
      if fileOutput.Some? {
        fileOutputName := fileOutput.value;
      }
      err := minioClient.FGetObject(bucket, fileName, fileOutputName);
    }
  }

  lemma {:induction false} ErrorsCount(results: seq<string>, e: string)
    ensures multiset(Errors(results))[e] == if e == "Success" then 0 else multiset(results)[e]
    decreases |results|
  {
    if results != [] {
      ErrorsCount(results[1..], e);
      assert results == [results[0]] + results[1..];
    }
  }

  /** Filtering the errors of two arrangements of the same results gives two arrangements of the same errors. */
  lemma ErrorsMultiset(a: seq<string>, b: seq<string>)
    requires multiset(a) == multiset(b)
    ensures multiset(Errors(a)) == multiset(Errors(b))
  {
    forall e
      ensures multiset(Errors(a))[e] == multiset(Errors(b))[e]
    {
      ErrorsCount(a, e);
      ErrorsCount(b, e);
    }
  }

  /** Two arrangements of the same tasks give two arrangements of the same results. */
  lemma ResultsMultiset(buckets: Buckets, s: seq<UploadTask>, t: seq<UploadTask>, faults: map<string, string>)
    requires multiset(s) == multiset(t)
    ensures multiset(Results(buckets, s, faults)) == multiset(Results(buckets, t, faults))
  {
    var f := (u: UploadTask) => UploadResult(buckets, u, faults);
    MapMultiset(f, s, t);
    assert Results(buckets, s, faults) == MapSeq(f, s);
    assert Results(buckets, t, faults) == MapSeq(f, t);
  }

  /**
   * One task of an upload run: its result is the same against the buckets
   * before the run, and its put extends the run's writes by one.
   */
  lemma UploadStep(before: Buckets, current: Buckets, bucket: string, run: seq<UploadTask>, j: nat, faults: map<string, string>)
    requires j < |run| && run[j].bucket == bucket
    requires current == if bucket in before then before[bucket := WriteAll(before[bucket], Written(before, run[..j], faults))] else before
    ensures UploadResult(current, run[j], faults) == UploadResult(before, run[j], faults)
    ensures Results(before, run[..j + 1], faults) == Results(before, run[..j], faults) + [UploadResult(before, run[j], faults)]
    ensures Put(current, bucket, run[j].remote, run[j].local, FaultOf(faults, run[j].local))
         == if bucket in before then before[bucket := WriteAll(before[bucket], Written(before, run[..j + 1], faults))] else before
  {
    var t := run[j];
    assert run[..j + 1][..j] == run[..j];
    assert run[..j + 1][j] == t;
    var prev := Written(before, run[..j], faults);
    var w := Written(before, run[..j + 1], faults);
    assert PutError(current, bucket, FaultOf(faults, t.local)) == PutError(before, bucket, FaultOf(faults, t.local));
    if Uploaded(before, t, faults) {
      assert w == prev + [(t.remote, t.local)];
      assert w[..|w| - 1] == prev;
    } else {
      assert w == prev + [];
      assert w == prev;
    }
  }
  lemma {:induction false} ErrorsAll(results: seq<string>)
    requires "Success" !in results
    ensures Errors(results) == results
    decreases |results|
  {
    if results != [] {
      assert results[0] != "Success" && "Success" !in results[1..];
      ErrorsAll(results[1..]);
    }
  }

  lemma {:induction false} NothingWritten(buckets: Buckets, run: seq<UploadTask>, faults: map<string, string>)
    requires forall t :: t in run ==> !Uploaded(buckets, t, faults)
    ensures Written(buckets, run, faults) == []
    decreases |run|
  {
    if run != [] {
      var pre := run[..|run| - 1];
      assert forall t :: t in pre ==> t in run;
      NothingWritten(buckets, pre, faults);
    }
  }

  /**
   * `upload` does not create a missing bucket: every task then fails, is
   * logged, and writes nothing.
   */
  lemma MissingBucket(buckets: Buckets, bucket: string, run: seq<UploadTask>, faults: map<string, string>)
    requires bucket !in buckets
    requires forall t :: t in run ==> t.bucket == bucket
    ensures Written(buckets, run, faults) == []
    ensures Errors(Results(buckets, run, faults)) == Results(buckets, run, faults)
  {
    NothingWritten(buckets, run, faults);
    assert forall j :: 0 <= j < |run| ==> Results(buckets, run, faults)[j] != "Success";
    ErrorsAll(Results(buckets, run, faults));
  }

  /** The writes of a run are exactly those of its tasks whose upload succeeds. */
  lemma {:induction false} WrittenMem(buckets: Buckets, run: seq<UploadTask>, faults: map<string, string>, p: (string, string))
    ensures p in Written(buckets, run, faults) <==>
      exists t :: t in run && Uploaded(buckets, t, faults) && p == (t.remote, t.local)
    decreases |run|
  {
    if run != [] {
      var pre := run[..|run| - 1];
      assert run == pre + [run[|run| - 1]];
      WrittenMem(buckets, pre, faults, p);
    }
  }

  /** Tasks with distinct object names write distinct names. */
  lemma {:induction false} WrittenDistinct(buckets: Buckets, run: seq<UploadTask>, faults: map<string, string>)
    requires RemotesDistinct(run)
    ensures NamesDistinct(Written(buckets, run, faults))
    decreases |run|
  {
    if run != [] {
      var m := |run| - 1;
      var pre, t := run[..m], run[m];
      var before := Written(buckets, pre, faults);
      WrittenDistinct(buckets, pre, faults);
      if Uploaded(buckets, t, faults) {
        forall i | 0 <= i < |before|
          ensures before[i].0 != t.remote
        {
          WrittenMem(buckets, pre, faults, before[i]);
          var u :| u in pre && Uploaded(buckets, u, faults) && before[i] == (u.remote, u.local);
          var k :| 0 <= k < |pre| && pre[k] == u;
          assert run[k] == u;
        }
      }
    }
  }

  lemma {:induction false} DistinctCount<T>(s: seq<T>, x: T)
    requires Distinct(s)
    ensures multiset(s)[x] <= 1
    decreases |s|
  {
    if s != [] {
      assert s == [s[0]] + s[1..];
      assert Distinct(s[1..]);
      DistinctCount(s[1..], x);
      if x == s[0] {
        assert x !in s[1..];
      }
    }
  }

  lemma TwiceCount<T>(t: seq<T>, i: int, j: int)
    requires 0 <= i < j < |t| && t[i] == t[j]
    ensures multiset(t)[t[i]] >= 2
  {
    assert t == t[..j] + [t[j]] + t[j + 1..];
    assert t[i] in t[..j];
  }

  /** Any arrangement of tasks with distinct object names has distinct object names. */
  lemma RemotesDistinctArrangement(s: seq<UploadTask>, t: seq<UploadTask>)
    requires multiset(s) == multiset(t) && RemotesDistinct(s)
    ensures RemotesDistinct(t)
  {
    forall i, j | 0 <= i < j < |t|
      ensures t[i].remote != t[j].remote
    {
      assert t[i] in multiset(s) && t[j] in multiset(s);
      var a :| 0 <= a < |s| && s[a] == t[i];
      var b :| 0 <= b < |s| && s[b] == t[j];
      if t[i] == t[j] {
        TwiceCount(t, i, j);
        DistinctCount(s, t[i]);
        assert false;
      } else {
        assert a != b;
      }
    }
  }

  /**
   * When no two tasks share an object name, the store an upload leaves does
   * not depend on the order the pool runs the tasks in.
   */
  lemma UploadOrderIrrelevant(buckets: Buckets, tasks: seq<UploadTask>, run1: seq<UploadTask>, run2: seq<UploadTask>,
                              faults: map<string, string>, objects: Objects)
    requires RemotesDistinct(tasks)
    requires multiset(run1) == multiset(tasks) && multiset(run2) == multiset(tasks)
    ensures WriteAll(objects, Written(buckets, run1, faults)) == WriteAll(objects, Written(buckets, run2, faults))
  {
    RemotesDistinctArrangement(tasks, run1);
    RemotesDistinctArrangement(tasks, run2);
    WrittenDistinct(buckets, run1, faults);
    WrittenDistinct(buckets, run2, faults);
    forall p
      ensures p in Written(buckets, run1, faults) <==> p in Written(buckets, run2, faults)
    {
      WrittenMem(buckets, run1, faults, p);
      WrittenMem(buckets, run2, faults, p);
      forall t
        ensures t in run1 <==> t in run2
      {
        assert t in run1 <==> t in multiset(run1);
        assert t in run2 <==> t in multiset(run2);
      }
    }
    WriteOrderIrrelevant(objects, Written(buckets, run1, faults), Written(buckets, run2, faults));
  }

  /**
   * When no two tasks share an object name, each task whose upload succeeds
   * leaves its local file under its object name, and every other object is
   * as before.
   */
  lemma UploadedObjects(buckets: Buckets, tasks: seq<UploadTask>, run: seq<UploadTask>,
                        faults: map<string, string>, objects: Objects)
    requires RemotesDistinct(tasks) && multiset(run) == multiset(tasks)
    ensures var after := WriteAll(objects, Written(buckets, run, faults));
      && (forall t :: t in tasks && Uploaded(buckets, t, faults) ==> t.remote in after && after[t.remote] == t.local)
      && (forall n :: n in objects && (forall t :: t in tasks && Uploaded(buckets, t, faults) ==> t.remote != n) ==>
            n in after && after[n] == objects[n])
  {
    var w := Written(buckets, run, faults);
    RemotesDistinctArrangement(tasks, run);
    WrittenDistinct(buckets, run, faults);
    WriteAllDistinct(objects, w);
    assert forall t :: t in run <==> t in multiset(tasks);
    forall t | t in tasks && Uploaded(buckets, t, faults)
      ensures (t.remote, t.local) in w
    {
      WrittenMem(buckets, run, faults, (t.remote, t.local));
    }
    forall i | 0 <= i < |w|
      ensures exists t :: t in tasks && Uploaded(buckets, t, faults) && w[i] == (t.remote, t.local)
    {
      WrittenMem(buckets, run, faults, w[i]);
    }
  }
  /**
   * The tasks of a directory upload in a well-formed tree have distinct
   * object names when no file below it has a backslash in its path.
   */
  lemma DirectoryTasksDistinct(w: MinioWrapper, fs: Node, bucket: string, directory: string, prefix: string)
    requires WellFormed(fs) && AbsNorm(directory) && IsDir(fs, directory) && directory != "/"
    requires NoBackslashes(DirFiles(fs, directory))
    ensures RemotesDistinct(w.Tasks(fs, bucket, directory, prefix))
  {
    UploadsOfDirectoryDistinct(fs, prefix, directory);
    var plan := Uploads(fs, prefix, directory);
    var tasks := w.Tasks(fs, bucket, directory, prefix);
    forall i, j | 0 <= i < j < |tasks|
      ensures tasks[i].remote != tasks[j].remote
    {
      assert tasks[i].remote == Names(plan)[i] && tasks[j].remote == Names(plan)[j];
    }
  }

  /**
   * A download of distinct names, none starting with '/', leaves every
   * listed object at `os.path.join(destination, name)` with its data, and
   * the same local files whatever order the threads finish in.
   */
  lemma DownloadedObjects(objects: Objects, destination: string, run1: seq<string>, run2: seq<string>, disk: Objects)
    requires Distinct(run1) && Distinct(run2) && (forall n :: n in run1 <==> n in run2)
    requires forall n :: n in run1 ==> n == "" || n[0] != '/'
    ensures forall n :: n in run1 && n in objects ==>
      Join(destination, n) in WriteAll(disk, Downloads(objects, destination, run1))
      && WriteAll(disk, Downloads(objects, destination, run1))[Join(destination, n)] == objects[n]
    ensures WriteAll(disk, Downloads(objects, destination, run1)) == WriteAll(disk, Downloads(objects, destination, run2))
  {
    var w1, w2 := Downloads(objects, destination, run1), Downloads(objects, destination, run2);
    DownloadsDistinct(objects, destination, run1);
    DownloadsDistinct(objects, destination, run2);
    WriteAllDistinct(disk, w1);
    forall n | n in run1 && n in objects
      ensures (Join(destination, n), objects[n]) in w1
    {
      DownloadsMem(objects, destination, run1, (Join(destination, n), objects[n]));
    }
    forall p
      ensures p in w1 <==> p in w2
    {
      DownloadsMem(objects, destination, run1, p);
      DownloadsMem(objects, destination, run2, p);
      if p in w1 {
        var k :| 0 <= k < |run1| && run1[k] in objects && p == (Join(destination, run1[k]), objects[run1[k]]);
        assert run1[k] in run2;
      }
      if p in w2 {
        var k :| 0 <= k < |run2| && run2[k] in objects && p == (Join(destination, run2[k]), objects[run2[k]]);
        assert run2[k] in run1;
      }
    }
    WriteOrderIrrelevant(disk, w1, w2);
  }

  /** `n` is under `prefix` with no '/' after it, or is itself a "directory" name ending with '/'. */
  predicate DirectlyUnder(n: string, prefix: string) {
    StartsWith(n, prefix) && ('/' !in n[|prefix|..] || n[|n| - 1] == '/')
  }

  /**
   * Without `recursive`, only the objects directly under the prefix are
   * saved (and objects whose name is a listed "directory"): nothing of a
   * deeper level is.
   */
  lemma ShallowDownloads(objects: Objects, prefix: string, destination: string, run: seq<string>)
    requires forall n :: n in run <==> n in Listed(objects, prefix, false)
    ensures forall p :: p in Downloads(objects, destination, run) ==>
      exists n :: n in objects && p == (Join(destination, n), objects[n]) && DirectlyUnder(n, prefix)
  {
    forall p | p in Downloads(objects, destination, run)
      ensures exists n :: n in objects && p == (Join(destination, n), objects[n]) && DirectlyUnder(n, prefix)
    {
      DownloadsMem(objects, destination, run, p);
      var k :| 0 <= k < |run| && run[k] in objects && p == (Join(destination, run[k]), objects[run[k]]);
      ListedShallow(objects, prefix, run[k]);
    }
  }
}

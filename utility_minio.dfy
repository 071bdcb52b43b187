/**
 * py_utility/minio_.py: `get_all_file_paths`, and `MinioClient`, a MinIO
 * client that creates the bucket when it is missing, uploads a file or
 * the files of a directory one after another, and downloads everything
 * under a prefix.
 */
module UtilityMinio {
  import opened Strings
  import opened PosixPath
  import opened Wrappers
  import opened FileTree
  import opened ObjectStore
  import opened Transfer
  import PathHelpers

  /**
   * `get_all_file_paths(directory)`: every `os.path.join(root, filename)`
   * of the walk, appended in walk order, and then each one's path relative
   * to `directory`.
   */
  method GetAllFilePaths(fs: Node, directory: string) returns (filePaths: seq<string>, relative: seq<string>)
    requires AbsNorm(directory)
    ensures (filePaths, relative) == FilePaths(fs, directory)
  {
    var steps := Walk(fs, directory);
    filePaths := [];
    var s := 0;
    while s < |steps|
      invariant 0 <= s <= |steps|
      invariant filePaths == WalkFiles(steps[..s], None)
    {
      var step := steps[s];
      var before := filePaths;
      var k := 0;
      while k < |step.files|
        invariant 0 <= k <= |step.files|
        invariant filePaths == before + JoinAll(step.root, FilterNames(step.files[..k], None))
      {
        PathHelpers.StepFilesSnoc(step.root, step.files, k, None);
        filePaths := filePaths + [Join(step.root, step.files[k])];
        k := k + 1;
      }
      assert step.files[..k] == step.files;
      PathHelpers.WalkFilesSnoc(steps, s, None);
      s := s + 1;
    }
    assert steps[..s] == steps;
    relative := RelativePaths(directory, filePaths);
  }

  /** An upload plan as writes: each object name with its data, the local file. */
  function Puts(plan: seq<(string, string)>): seq<(string, string)> {
    seq(|plan|, k requires 0 <= k < |plan| => (plan[k].1, plan[k].0))
  }

  /** The index of the first upload of the plan that meets a fault, or the plan's length when none does. */
  function FirstFault(plan: seq<(string, string)>, faults: map<string, string>): (r: nat)
    ensures r <= |plan|
    ensures forall k :: 0 <= k < r ==> plan[k].0 !in faults
    ensures r < |plan| ==> plan[r].0 in faults
  {
    if plan == [] then 0
    else if plan[0].0 in faults then 0
    else 1 + FirstFault(plan[1..], faults)
  }

  /** None of the first `k` uploads of the plan meets a fault. */
  predicate NoFaultBefore(plan: seq<(string, string)>, faults: map<string, string>, k: nat)
    requires k <= |plan|
  {
    forall j :: 0 <= j < k ==> plan[j].0 !in faults
  }

  lemma NoFaultStep(plan: seq<(string, string)>, faults: map<string, string>, k: nat)
    requires k < |plan| && NoFaultBefore(plan, faults, k) && plan[k].0 !in faults
    ensures NoFaultBefore(plan, faults, k + 1)
  {
  }

  /** The first fault is at `k` when none comes before and `k` is faulty or the end. */
  lemma FirstFaultIs(plan: seq<(string, string)>, faults: map<string, string>, k: nat)
    requires k <= |plan| && NoFaultBefore(plan, faults, k)
    requires k < |plan| ==> plan[k].0 in faults
    ensures FirstFault(plan, faults) == k
  {
  }

  class MinioClient {
    /** The server this client is connected to. */
    const server: Server

    constructor (server: Server)
      ensures this.server == server
    {
      this.server := server;
    }

    /**
     * `upload(bucket_name, prefix, path_local_upload)`: the bucket is created
     * when it does not exist; then the planned uploads run one after another,
     * and the first one that fails ends the upload with its error, the later
     * ones never starting.
     */
    method Upload(fs: Node, bucketName: string, prefix: string, pathLocalUpload: string,
                  faults: map<string, string>) returns (err: Option<string>)
      requires AbsNorm(pathLocalUpload)
      modifies server
      ensures var plan := Uploads(fs, prefix, pathLocalUpload);
        var n := FirstFault(plan, faults);
        var start := if bucketName in old(server.buckets) then old(server.buckets)[bucketName] else map[];
        && err == (if n < |plan| then Some(faults[plan[n].0]) else None)
        && server.buckets == old(server.buckets)[bucketName := WriteAll(start, Puts(plan[..n]))]
      ensures server.disk == old(server.disk)
    {
      ghost var plan := Uploads(fs, prefix, pathLocalUpload);
      ghost var n := FirstFault(plan, faults);
      ghost var start := if bucketName in server.buckets then server.buckets[bucketName] else map[];
      var found := server.BucketExists(bucketName);
      if !found {
        server.MakeBucket(bucketName);
      }
      assert server.buckets == old(server.buckets)[bucketName := start];
      var isDir := IsDir(fs, pathLocalUpload);
      if isDir {
        err := UploadDirectory(fs, bucketName, prefix, pathLocalUpload, faults);
        assert server.buckets == old(server.buckets)[bucketName := start][bucketName := WriteAll(start, Puts(plan[..n]))];
      } else {
        err := UploadSingle(fs, bucketName, prefix, pathLocalUpload, faults);
        assert server.buckets == old(server.buckets)[bucketName := start][bucketName := WriteAll(start, Puts(plan[..n]))];
      }
    }

    /** The single-file case of `upload`, once the bucket exists: one put under the prefix. */
    method UploadSingle(fs: Node, bucketName: string, prefix: string, pathLocalUpload: string,
                        faults: map<string, string>) returns (err: Option<string>)
      requires AbsNorm(pathLocalUpload) && !IsDir(fs, pathLocalUpload)
      requires bucketName in server.buckets
      modifies server
      ensures var plan := Uploads(fs, prefix, pathLocalUpload);
        var n := FirstFault(plan, faults);
        && err == (if n < |plan| then Some(faults[plan[n].0]) else None)
        && server.buckets == old(server.buckets)[bucketName := WriteAll(old(server.buckets)[bucketName], Puts(plan[..n]))]
      ensures server.disk == old(server.disk)
    {
      ghost var plan := Uploads(fs, prefix, pathLocalUpload);
      ghost var n := FirstFault(plan, faults);
      assert plan == [(pathLocalUpload, ObjectName(prefix, Basename(pathLocalUpload)))];
      var pathDrive := ReplaceChar(Join(prefix, Basename(pathLocalUpload)), '\\', '/');
      err := server.FPutObject(bucketName, pathDrive, pathLocalUpload, FaultOf(faults, pathLocalUpload));
      if err.None? {
        PutStep(plan, 0, old(server.buckets)[bucketName]);
        assert n == 1;
      } else {
        assert n == 0;
      }
    }

    /** The directory case of `upload`, once the bucket exists. */
    method UploadDirectory(fs: Node, bucketName: string, prefix: string, pathLocalUpload: string,
                           faults: map<string, string>) returns (err: Option<string>)
      requires AbsNorm(pathLocalUpload) && IsDir(fs, pathLocalUpload)
      requires bucketName in server.buckets
      modifies server
      ensures var plan := Uploads(fs, prefix, pathLocalUpload);
        var n := FirstFault(plan, faults);
        && err == (if n < |plan| then Some(faults[plan[n].0]) else None)
        && server.buckets == old(server.buckets)[bucketName := WriteAll(old(server.buckets)[bucketName], Puts(plan[..n]))]
      ensures server.disk == old(server.disk)
    {
      ghost var plan := Uploads(fs, prefix, pathLocalUpload);
      var under := Join(prefix, Basename(pathLocalUpload));
      var files, rels := GetAllFilePaths(fs, pathLocalUpload);
      assert |plan| == |files| == |rels| && forall k :: 0 <= k < |plan| ==> plan[k] == (files[k], ObjectName(under, rels[k])) by {
        UploadsPlan(fs, prefix, pathLocalUpload);
      }
      err := PutAll(bucketName, files, rels, under, faults, plan);
    }

    /**
     * The loop of `upload` over a directory: the files go up one after
     * another under `under`, and the first failure ends the loop with its
     * error. `plan` is the same uploads as (local file, object name) pairs.
     */
    method PutAll(bucketName: string, files: seq<string>, rels: seq<string>, under: string,
                  faults: map<string, string>, ghost plan: seq<(string, string)>) returns (err: Option<string>)
      requires |files| == |rels| == |plan|
      requires forall k :: 0 <= k < |plan| ==> plan[k] == (files[k], ObjectName(under, rels[k]))
      requires bucketName in server.buckets
      modifies server
      ensures var n := FirstFault(plan, faults);
        && err == (if n < |plan| then Some(faults[plan[n].0]) else None)
        && server.buckets == old(server.buckets)[bucketName := WriteAll(old(server.buckets)[bucketName], Puts(plan[..n]))]
      ensures server.disk == old(server.disk)
    {
      ghost var start := server.buckets[bucketName];
      ghost var objects := start;
      var k := 0;
      while k < |files|
        invariant 0 <= k <= |files|
        invariant NoFaultBefore(plan, faults, k)
        invariant objects == WriteAll(start, Puts(plan[..k]))
        invariant server.buckets == old(server.buckets)[bucketName := objects]
        invariant server.disk == old(server.disk)
      {
        var pathDrive := ReplaceChar(Join(under, rels[k]), '\\', '/');
        assert plan[k] == (files[k], pathDrive);
        var e := PutOne(bucketName, pathDrive, files[k], faults);
        if e.Some? {
          FirstFaultIs(plan, faults, k);
          return e;
        }
        NoFaultStep(plan, faults, k);
        PutStep(plan, k, start);
        objects := objects[pathDrive := files[k]];
        k := k + 1;
      }
      FirstFaultIs(plan, faults, k);
      assert plan[..k] == plan;
      err := None;
    }

    /** One `fput_object` into an existing bucket: it fails exactly when the local file meets a fault. */
    method PutOne(bucketName: string, key: string, local: string, faults: map<string, string>) returns (err: Option<string>)
      requires bucketName in server.buckets
      modifies server
      ensures err == FaultOf(faults, local)
      ensures server.buckets == if local in faults then old(server.buckets)
        else old(server.buckets)[bucketName := old(server.buckets)[bucketName][key := local]]
      ensures server.disk == old(server.disk)
    {
      err := server.FPutObject(bucketName, key, local, FaultOf(faults, local));
    }

    /**
     * `download(bucket_name, prefix, dir_local_storage)`: every object under
     * the prefix, listed recursively in the order `listing`, is saved to
     * `os.path.join(dir_local_storage, name)`; a missing bucket makes the
     * listing fail.
     */
    method Download(bucketName: string, prefix: string, dirLocalStorage: string, listing: seq<string>)
      returns (err: Option<string>)
      requires bucketName in server.buckets ==> Distinct(listing)
      requires bucketName in server.buckets ==>
        forall n :: n in listing <==> n in Listed(server.buckets[bucketName], prefix, true)
      modifies server
      ensures err == if bucketName in old(server.buckets) then None else Some("NoSuchBucket")
      ensures server.buckets == old(server.buckets)
      ensures server.disk
           == if bucketName in server.buckets
              then WriteAll(old(server.disk), Downloads(server.buckets[bucketName], dirLocalStorage, listing))
              else old(server.disk)
    {
      if bucketName !in server.buckets {
        return Some("NoSuchBucket");
      }
      err := None;
      var objects := server.buckets[bucketName];
      var j := 0;
      while j < |listing|
        invariant 0 <= j <= |listing|
        invariant server.buckets == old(server.buckets)
        invariant server.disk == WriteAll(old(server.disk), Downloads(objects, dirLocalStorage, listing[..j]))
      {
        var name := listing[j];
        ListedRecursive(objects, prefix, name);
        var dest := Join(dirLocalStorage, name);
        var fetchError := server.FGetObject(bucketName, name, dest);
        assert fetchError.None?;
        DownloadsStep(objects, dirLocalStorage, listing, j, old(server.disk));
        j := j + 1;
      }
      assert listing[..j] == listing;
    }
  }

  /** One more successful put extends the writes by the next planned upload. */
  lemma PutStep(plan: seq<(string, string)>, k: nat, start: Objects)
    requires k < |plan|
    ensures WriteAll(start, Puts(plan[..k + 1])) == WriteAll(start, Puts(plan[..k]))[plan[k].1 := plan[k].0]
  {
    var w := Puts(plan[..k + 1]);
    assert w[..|w| - 1] == Puts(plan[..k]);
  }
}

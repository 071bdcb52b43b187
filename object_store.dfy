/**
 * The MinIO server as the two clients see it: buckets of named objects,
 * and the local files that downloads write. These are the calls of the
 * `minio` package the clients make (`bucket_exists`, `make_bucket`,
 * `fput_object`, `fget_object`, `list_objects`). The package is not part
 * of this model; its members here state what the calling code relies on.
 */
module ObjectStore {
  import opened Wrappers
  import opened Strings

  /**
   * Object names to object data. An uploaded object's data is named by the
   * local file it was read from, and a downloaded file's by the object.
   */
  type Objects = map<string, string>

  /** Bucket names to their objects. */
  type Buckets = map<string, Objects>

  /** The writes applied one after another: a later write to a name replaces an earlier one. */
  function WriteAll(m: Objects, writes: seq<(string, string)>): Objects
    decreases |writes|
  {
    if writes == [] then m
    else
      var last := writes[|writes| - 1];
      WriteAll(m, writes[..|writes| - 1])[last.0 := last.1]
  }

  /** No two writes go to the same name. */
  predicate NamesDistinct(writes: seq<(string, string)>) {
    forall i, j :: 0 <= i < j < |writes| ==> writes[i].0 != writes[j].0
  }

  /** With distinct names every write lands, and every other entry keeps its data. */
  lemma {:induction false} WriteAllDistinct(m: Objects, writes: seq<(string, string)>)
    requires NamesDistinct(writes)
    ensures forall i :: 0 <= i < |writes| ==> writes[i].0 in WriteAll(m, writes) && WriteAll(m, writes)[writes[i].0] == writes[i].1
    ensures forall k :: k in WriteAll(m, writes) <==> k in m || exists i :: 0 <= i < |writes| && writes[i].0 == k
    ensures forall k :: k in m && (forall i :: 0 <= i < |writes| ==> writes[i].0 != k) ==> WriteAll(m, writes)[k] == m[k]
    decreases |writes|
  {
    if writes != [] {
      var n := |writes| - 1;
      var pre := writes[..n];
      assert forall i :: 0 <= i < n ==> pre[i] == writes[i];
      WriteAllDistinct(m, pre);
    }
  }

  /** With distinct names, each write is what its name ends up holding. */
  lemma {:induction false} WriteAllAt(m: Objects, writes: seq<(string, string)>, i: nat)
    requires NamesDistinct(writes) && i < |writes|
    ensures writes[i].0 in WriteAll(m, writes) && WriteAll(m, writes)[writes[i].0] == writes[i].1
    decreases |writes|
  {
    var n := |writes| - 1;
    if i < n {
      var pre := writes[..n];
      assert NamesDistinct(pre) by {
        forall a, b | 0 <= a < b < n
          ensures pre[a].0 != pre[b].0
        {
          assert pre[a] == writes[a] && pre[b] == writes[b];
        }
      }
      assert pre[i] == writes[i];
      WriteAllAt(m, pre, i);
      assert writes[n].0 != writes[i].0;
    }
  }

  /** A name no write goes to keeps its entry, or its absence. */
  lemma {:induction false} WriteAllMissed(m: Objects, writes: seq<(string, string)>, k: string)
    requires forall i :: 0 <= i < |writes| ==> writes[i].0 != k
    ensures k in WriteAll(m, writes) <==> k in m
    ensures k in m ==> WriteAll(m, writes)[k] == m[k]
    decreases |writes|
  {
    if writes != [] {
      var n := |writes| - 1;
      var pre := writes[..n];
      assert forall i :: 0 <= i < n ==> pre[i] == writes[i];
      WriteAllMissed(m, pre, k);
      assert writes[n].0 != k;
    }
  }

  /** One name under two orders of the same distinct writes. */
  lemma WriteOrderAt(m: Objects, w1: seq<(string, string)>, w2: seq<(string, string)>, k: string)
    requires NamesDistinct(w1) && NamesDistinct(w2)
    requires forall p :: p in w1 <==> p in w2
    ensures k in WriteAll(m, w1) <==> k in WriteAll(m, w2)
    ensures k in WriteAll(m, w1) ==> WriteAll(m, w1)[k] == WriteAll(m, w2)[k]
  {
    if i :| 0 <= i < |w1| && w1[i].0 == k {
      assert w1[i] in w2;
      var j :| 0 <= j < |w2| && w2[j] == w1[i];
      WriteAllAt(m, w1, i);
      WriteAllAt(m, w2, j);
    } else {
      forall j | 0 <= j < |w2|
        ensures w2[j].0 != k
      {
        assert w2[j] in w1;
      }
      WriteAllMissed(m, w1, k);
      WriteAllMissed(m, w2, k);
    }
  }

  /** With distinct names, the order of the writes does not matter. */
  lemma WriteOrderIrrelevant(m: Objects, w1: seq<(string, string)>, w2: seq<(string, string)>)
    requires NamesDistinct(w1) && NamesDistinct(w2)
    requires forall p :: p in w1 <==> p in w2
    ensures WriteAll(m, w1) == WriteAll(m, w2)
  {
    var a, b := WriteAll(m, w1), WriteAll(m, w2);
    forall k
      ensures (k in a <==> k in b) && (k in a ==> a[k] == b[k])
    {
      WriteOrderAt(m, w1, w2, k);
    }
  }

  /** The fault, if any, that the upload of the local file `local` meets (reading it, or reaching the server). */
  function FaultOf(faults: map<string, string>, local: string): Option<string> {
    if local in faults then Some(faults[local]) else None
  }

  /** Why an `fput_object` fails: a fault reading the file or reaching the server, else a missing bucket. */
  function PutError(buckets: Buckets, b: string, fault: Option<string>): Option<string> {
    if fault.Some? then fault
    else if b !in buckets then Some("NoSuchBucket")
    else None
  }

  /** The buckets after an `fput_object`: the object is created or replaced when the call succeeds. */
  function Put(buckets: Buckets, b: string, key: string, data: string, fault: Option<string>): Buckets {
    if PutError(buckets, b, fault).None? then buckets[b := buckets[b][key := data]] else buckets
  }

  /** Why an `fget_object` fails: a missing bucket or a missing object. */
  function GetError(buckets: Buckets, b: string, key: string): Option<string> {
    if b !in buckets then Some("NoSuchBucket")
    else if key !in buckets[b] then Some("NoSuchKey")
    else None
  }

  /**
   * The name `list_objects` yields for an object under `prefix`: the object's
   * own name when listing recursively or when no '/' follows the prefix,
   * otherwise the common prefix up to and including the first such '/'.
   */
  function ListEntry(name: string, prefix: string, recursive: bool): string
    requires StartsWith(name, prefix)
  {
    var rest := name[|prefix|..];
    var i := Find(rest, '/');
    if recursive || i < 0 then name else prefix + rest[..i + 1]
  }

  /** The names `list_objects(bucket, prefix, recursive)` yields, as a set. */
  function Listed(objects: Objects, prefix: string, recursive: bool): set<string> {
    set name | name in objects && StartsWith(name, prefix) :: ListEntry(name, prefix, recursive)
  }

  /** A recursive listing names exactly the objects under the prefix. */
  lemma ListedRecursive(objects: Objects, prefix: string, n: string)
    ensures n in Listed(objects, prefix, true) <==> n in objects && StartsWith(n, prefix)
  {
    if n in objects && StartsWith(n, prefix) {
      assert ListEntry(n, prefix, true) == n;
    }
  }

  /**
   * A listing that is not recursive names the objects directly under the
   * prefix, and otherwise only "directories": names that end with '/' and
   * begin some object's name.
   */
  lemma ListedShallow(objects: Objects, prefix: string, n: string)
    requires n in Listed(objects, prefix, false)
    ensures StartsWith(n, prefix)
    ensures (n in objects && '/' !in n[|prefix|..])
         || (|n| > |prefix| && n[|n| - 1] == '/' && exists name :: name in objects && StartsWith(name, n))
  {
    var name :| name in objects && StartsWith(name, prefix) && ListEntry(name, prefix, false) == n;
    var rest := name[|prefix|..];
    var i := Find(rest, '/');
    if i >= 0 {
      assert name == prefix + rest[..i + 1] + rest[i + 1..];
      assert StartsWith(name, n) && n[|n| - 1] == rest[i];
    } else {
      assert forall j :: 0 <= j < |rest| ==> rest[j] != '/';
    }
  }

  /** A MinIO server: its buckets, and the local files downloads have written. */
  class Server {
    var buckets: Buckets
    var disk: Objects

    constructor (buckets: Buckets, disk: Objects)
      ensures this.buckets == buckets && this.disk == disk
    {
      this.buckets := buckets;
      this.disk := disk;
    }

    /** `bucket_exists(b)`. */
    predicate BucketExists(b: string)
      reads this
    {
      b in buckets
    }

    /** `make_bucket(b)` for a bucket that does not exist yet: it is created empty. */
    method MakeBucket(b: string)
      requires b !in buckets
      modifies this
      ensures buckets == old(buckets)[b := map[]] && disk == old(disk)
    {
      buckets := buckets[b := map[]];
    }

    /** `fput_object(b, key, local)`: `fault` is the error the transfer meets, if any. */
    method FPutObject(b: string, key: string, local: string, fault: Option<string>) returns (err: Option<string>)
      modifies this
      ensures err == PutError(old(buckets), b, fault)
      ensures buckets == Put(old(buckets), b, key, local, fault) && disk == old(disk)
    {
      err := PutError(buckets, b, fault);
      if err.None? {
        buckets := buckets[b := buckets[b][key := local]];
      }
    }

    /** `fget_object(b, key, dest)`: the object's data is written to the local file `dest`. */
    method FGetObject(b: string, key: string, dest: string) returns (err: Option<string>)
      modifies this
      ensures err == GetError(buckets, b, key) && buckets == old(buckets)
      ensures disk == if err.None? then old(disk)[dest := buckets[b][key]] else old(disk)
    {
      err := GetError(buckets, b, key);
      if err.None? {
        disk := disk[dest := buckets[b][key]];
      }
    }
  }
}

/**
 * The directory tree the path helpers read through `os.path.isfile`,
 * `os.path.isdir`, `os.listdir` and `os.walk`.
 *
 * A directory lists its entries in a fixed order, which stands for the
 * order the operating system returns them in; `os.walk` is top-down and
 * follows that order.
 */
module FileTree {
  import opened Strings
  import opened PosixPath
  import opened Wrappers

  /** A directory entry: a regular file or a directory with its entries. */
  datatype Node = File(name: string) | Dir(name: string, children: seq<Node>)

  /** The `OSError` subclasses `os.listdir` raises. */
  datatype OsError = FileNotFound | NotADirectory

  /** Every entry has a valid name and no directory holds two entries of the same name. */
  predicate WellFormed(node: Node) {
    match node
    case File(_) => true
    case Dir(_, ch) =>
      && (forall i :: 0 <= i < |ch| ==> ValidName(ch[i].name) && WellFormed(ch[i]))
      && (forall i, j :: 0 <= i < j < |ch| ==> ch[i].name != ch[j].name)
  }

  /** The index of the first entry called `n`, or -1. */
  function FindChild(ch: seq<Node>, n: string): (r: int)
    ensures -1 <= r < |ch|
    ensures r >= 0 ==> ch[r].name == n
    ensures forall j :: 0 <= j < |ch| && (r < 0 || j < r) ==> ch[j].name != n
  {
    if ch == [] then -1
    else if ch[0].name == n then 0
    else var k := FindChild(ch[1..], n); if k < 0 then -1 else k + 1
  }

  /** The entry reached from `node` by the components `rel`, if there is one. */
  function Lookup(node: Node, rel: seq<string>): Option<Node>
    decreases |rel|
  {
    if rel == [] then Some(node)
    else match node
      case File(_) => None
      case Dir(_, ch) =>
        var i := FindChild(ch, rel[0]);
        if i < 0 then None else Lookup(ch[i], rel[1..])
  }

  /** `rel` names a regular file below `node`. */
  predicate IsFileAt(node: Node, rel: seq<string>) {
    var e := Lookup(node, rel); e.Some? && e.value.File?
  }

  /** `rel` names a directory below (or at) `node`. */
  predicate IsDirAt(node: Node, rel: seq<string>) {
    var e := Lookup(node, rel); e.Some? && e.value.Dir?
  }

  /** `os.path.isfile` of an absolute normalised path, in the tree rooted at `fs` ("/"). */
  predicate IsFile(fs: Node, path: string)
    requires AbsNorm(path)
  {
    IsFileAt(fs, Components(path))
  }

  /** `os.path.isdir` of an absolute normalised path, in the tree rooted at `fs` ("/"). */
  predicate IsDir(fs: Node, path: string)
    requires AbsNorm(path)
  {
    IsDirAt(fs, Components(path))
  }

  /** `os.walk(path)` in the tree rooted at `fs`: nothing when the path does not exist. */
  function Walk(fs: Node, path: string): seq<WalkStep>
    requires AbsNorm(path)
  {
    var e := Lookup(fs, Components(path));
    if e.None? then [] else OsWalk(path, e.value)
  }

  /** The names of the entries that are files, in order. */
  function FileNames(ch: seq<Node>): (names: seq<string>)
    ensures |names| <= |ch|
  {
    if ch == [] then [] else (if ch[0].File? then [ch[0].name] else []) + FileNames(ch[1..])
  }

  /** The names of the entries that are directories, in order. */
  function DirNames(ch: seq<Node>): (names: seq<string>)
    ensures |names| <= |ch|
  {
    if ch == [] then [] else (if ch[0].Dir? then [ch[0].name] else []) + DirNames(ch[1..])
  }

  /** `endswith is None or name.endswith(endswith)`. */
  predicate Matches(name: string, endswith: Option<string>) {
    endswith.None? || EndsWith(name, endswith.value)
  }

  /** The names that match the filter, in order. */
  function FilterNames(names: seq<string>, endswith: Option<string>): seq<string> {
    if names == [] then []
    else (if Matches(names[0], endswith) then [names[0]] else []) + FilterNames(names[1..], endswith)
  }

  /** The filter keeps exactly the names that match. */
  lemma {:induction false} FilterNamesMem(names: seq<string>, endswith: Option<string>, n: string)
    ensures n in FilterNames(names, endswith) <==> n in names && Matches(n, endswith)
    decreases |names|
  {
    if names != [] {
      FilterNamesMem(names[1..], endswith, n);
      assert names == [names[0]] + names[1..];
    }
  }

  /** `[os.path.join(root, n) for n in names]`. */
  function JoinAll(root: string, names: seq<string>): (r: seq<string>)
    ensures |r| == |names|
    ensures forall k :: 0 <= k < |names| ==> r[k] == Join(root, names[k])
  {
    seq(|names|, k requires 0 <= k < |names| => Join(root, names[k]))
  }

  /** One triple `(root, dirs, files)` of `os.walk`. */
  datatype WalkStep = WalkStep(root: string, dirs: seq<string>, files: seq<string>)

  /**
   * `os.walk(top)` on the entry `node` found at `top`: nothing for a file
   * (listing it fails and the error is ignored), otherwise the triple of
   * `top`, then the walks of its subdirectories in order.
   */
  function OsWalk(top: string, node: Node): (steps: seq<WalkStep>)
    ensures node.Dir? ==> |steps| >= 1 && steps[0].root == top
    decreases node, 1
  {
    match node
    case File(_) => []
    case Dir(_, ch) => [WalkStep(top, DirNames(ch), FileNames(ch))] + SubWalks(top, node, 0)
  }

  /** The walks of the subdirectories of `node` from its `i`-th entry on. */
  function SubWalks(top: string, node: Node, i: nat): seq<WalkStep>
    requires node.Dir? && i <= |node.children|
    decreases node, 0, |node.children| - i
  {
    if i == |node.children| then []
    else
      var c := node.children[i];
      (if c.Dir? then OsWalk(Join(top, c.name), c) else []) + SubWalks(top, node, i + 1)
  }

  /** The files of one walk step that match the filter, joined to its root. */
  function StepFiles(step: WalkStep, endswith: Option<string>): seq<string> {
    JoinAll(step.root, FilterNames(step.files, endswith))
  }

  /** `[os.path.join(root, f) for root, _, files in steps for f in files if matches(f)]`. */
  function WalkFiles(steps: seq<WalkStep>, endswith: Option<string>): seq<string> {
    if steps == [] then [] else StepFiles(steps[0], endswith) + WalkFiles(steps[1..], endswith)
  }

  /**
   * The reference listing: the component paths, relative to `node`, of
   * every file below it whose name matches the filter, the entries of a
   * directory before the contents of its subdirectories.
   */
  function Files(node: Node, endswith: Option<string>): seq<seq<string>>
    decreases node, 1
  {
    match node
    case File(_) => []
    case Dir(_, ch) => Singles(FilterNames(FileNames(ch), endswith)) + SubFiles(node, 0, endswith)
  }

  function SubFiles(node: Node, i: nat, endswith: Option<string>): seq<seq<string>>
    requires node.Dir? && i <= |node.children|
    decreases node, 0, |node.children| - i
  {
    if i == |node.children| then []
    else
      var c := node.children[i];
      (if c.Dir? then Prefixed(c.name, Files(c, endswith)) else []) + SubFiles(node, i + 1, endswith)
  }

  /** Each name as a one-component path. */
  function Singles(names: seq<string>): seq<seq<string>> {
    seq(|names|, k requires 0 <= k < |names| => [names[k]])
  }

  /** Each path with `n` put in front. */
  function Prefixed(n: string, rels: seq<seq<string>>): seq<seq<string>> {
    seq(|rels|, k requires 0 <= k < |rels| => [n] + rels[k])
  }

  /** The absolute paths of component paths taken relative to `cs`. */
  function RenderAll(cs: seq<string>, rels: seq<seq<string>>): seq<string> {
    seq(|rels|, k requires 0 <= k < |rels| => Render(cs + rels[k]))
  }

  /** `Render` of one more component is `os.path.join` of the parent and the name. */
  lemma RenderJoin(cs: seq<string>, n: string)
    ensures Render(cs + [n]) == Join(Render(cs), n)
  {
    assert (cs + [n])[..|cs|] == cs;
  }

  lemma {:induction false} WalkFilesAppend(a: seq<WalkStep>, b: seq<WalkStep>, endswith: Option<string>)
    ensures WalkFiles(a + b, endswith) == WalkFiles(a, endswith) + WalkFiles(b, endswith)
    decreases |a|
  {
    if a != [] {
      assert (a + b)[1..] == a[1..] + b;
      WalkFilesAppend(a[1..], b, endswith);
    } else {
      assert a + b == b;
    }
  }

  lemma RenderAllAppend(cs: seq<string>, x: seq<seq<string>>, y: seq<seq<string>>)
    ensures RenderAll(cs, x + y) == RenderAll(cs, x) + RenderAll(cs, y)
  {
  }

  lemma RenderAllPrefixed(cs: seq<string>, n: string, rels: seq<seq<string>>)
    ensures RenderAll(cs + [n], rels) == RenderAll(cs, Prefixed(n, rels))
  {
    forall k | 0 <= k < |rels|
      ensures (cs + [n]) + rels[k] == cs + ([n] + rels[k])
    {
    }
  }

  /** The files of a directory's own walk step are its matching file entries, joined to it. */
  lemma StepRender(cs: seq<string>, dirs: seq<string>, names: seq<string>, endswith: Option<string>)
    ensures StepFiles(WalkStep(Render(cs), dirs, names), endswith) == RenderAll(cs, Singles(FilterNames(names, endswith)))
  {
    var fs := FilterNames(names, endswith);
    forall k | 0 <= k < |fs|
      ensures Join(Render(cs), fs[k]) == Render(cs + [fs[k]])
    {
      RenderJoin(cs, fs[k]);
    }
  }

  /** Walking the directory at `Render(cs)` lists exactly the reference listing, made absolute. */
  lemma {:induction false} WalkRender(cs: seq<string>, node: Node, endswith: Option<string>)
    ensures WalkFiles(OsWalk(Render(cs), node), endswith) == RenderAll(cs, Files(node, endswith))
    decreases node, 1
  {
    match node
    case File(_) =>
    case Dir(_, ch) =>
      var first := WalkStep(Render(cs), DirNames(ch), FileNames(ch));
      assert OsWalk(Render(cs), node) == [first] + SubWalks(Render(cs), node, 0);
      WalkFilesAppend([first], SubWalks(Render(cs), node, 0), endswith);
      StepRender(cs, DirNames(ch), FileNames(ch), endswith);
      SubWalkRender(cs, node, 0, endswith);
      RenderAllAppend(cs, Singles(FilterNames(FileNames(ch), endswith)), SubFiles(node, 0, endswith));
  }

  lemma {:induction false} SubWalkRender(cs: seq<string>, node: Node, i: nat, endswith: Option<string>)
    requires node.Dir? && i <= |node.children|
    ensures WalkFiles(SubWalks(Render(cs), node, i), endswith) == RenderAll(cs, SubFiles(node, i, endswith))
    decreases node, 0, |node.children| - i
  {
    if i < |node.children| {
      var c := node.children[i];
      var here := if c.Dir? then OsWalk(Join(Render(cs), c.name), c) else [];
      WalkFilesAppend(here, SubWalks(Render(cs), node, i + 1), endswith);
      SubWalkRender(cs, node, i + 1, endswith);
      var mine := if c.Dir? then Prefixed(c.name, Files(c, endswith)) else [];
      RenderAllAppend(cs, mine, SubFiles(node, i + 1, endswith));
      if c.Dir? {
        RenderJoin(cs, c.name);
        WalkRender(cs + [c.name], c, endswith);
        RenderAllPrefixed(cs, c.name, Files(c, endswith));
      }
    }
  }

  /** In a well-formed directory the entry called `n` is the one `FindChild` finds. */
  lemma UniqueChild(node: Node, j: int, n: string)
    requires WellFormed(node) && node.Dir? && 0 <= j < |node.children| && node.children[j].name == n
    ensures FindChild(node.children, n) == j
  {
  }

  /** Looking up one component finds the first entry of that name. */
  lemma LookupOne(node: Node, n: string)
    requires node.Dir?
    ensures var i := FindChild(node.children, n);
      Lookup(node, [n]) == if i < 0 then None else Some(node.children[i])
  {
    assert [n][1..] == [];
  }

  lemma {:induction false} FileNamesMem(ch: seq<Node>, n: string)
    ensures n in FileNames(ch) <==> exists j :: 0 <= j < |ch| && ch[j].File? && ch[j].name == n
    decreases |ch|
  {
    if ch != [] {
      FileNamesMem(ch[1..], n);
      if n in FileNames(ch[1..]) {
        var j :| 0 <= j < |ch[1..]| && ch[1..][j].File? && ch[1..][j].name == n;
        assert ch[j + 1] == ch[1..][j];
      }
      if exists j :: 0 <= j < |ch| && ch[j].File? && ch[j].name == n {
        var j :| 0 <= j < |ch| && ch[j].File? && ch[j].name == n;
        if j > 0 {
          assert ch[1..][j - 1] == ch[j];
        }
      }
    }
  }

  lemma {:induction false} DirNamesMem(ch: seq<Node>, n: string)
    ensures n in DirNames(ch) <==> exists j :: 0 <= j < |ch| && ch[j].Dir? && ch[j].name == n
    decreases |ch|
  {
    if ch != [] {
      DirNamesMem(ch[1..], n);
      if n in DirNames(ch[1..]) {
        var j :| 0 <= j < |ch[1..]| && ch[1..][j].Dir? && ch[1..][j].name == n;
        assert ch[j + 1] == ch[1..][j];
      }
      if exists j :: 0 <= j < |ch| && ch[j].Dir? && ch[j].name == n {
        var j :| 0 <= j < |ch| && ch[j].Dir? && ch[j].name == n;
        if j > 0 {
          assert ch[1..][j - 1] == ch[j];
        }
      }
    }
  }

  /** In a well-formed directory, `n` is a file entry exactly when looking it up finds a file. */
  lemma FileNamesLookup(node: Node, n: string)
    requires WellFormed(node) && node.Dir?
    ensures n in FileNames(node.children) <==> IsFileAt(node, [n])
  {
    var ch := node.children;
    FileNamesMem(ch, n);
    LookupOne(node, n);
    var i := FindChild(ch, n);
    if n in FileNames(ch) {
      var j :| 0 <= j < |ch| && ch[j].File? && ch[j].name == n;
      UniqueChild(node, j, n);
    }
    if IsFileAt(node, [n]) {
      assert 0 <= i < |ch| && ch[i].File? && ch[i].name == n;
    }
  }


  /** In a well-formed directory, `n` is a directory entry exactly when looking it up finds a directory. */
  lemma DirNamesLookup(node: Node, n: string)
    requires WellFormed(node) && node.Dir?
    ensures n in DirNames(node.children) <==> IsDirAt(node, [n])
  {
    var ch := node.children;
    DirNamesMem(ch, n);
    LookupOne(node, n);
    var i := FindChild(ch, n);
    if n in DirNames(ch) {
      var j :| 0 <= j < |ch| && ch[j].Dir? && ch[j].name == n;
      UniqueChild(node, j, n);
    }
    if IsDirAt(node, [n]) {
      assert 0 <= i < |ch| && ch[i].Dir? && ch[i].name == n;
    }
  }


  lemma SinglesMem(names: seq<string>, rel: seq<string>)
    ensures rel in Singles(names) <==> |rel| == 1 && rel[0] in names
  {
    if |rel| == 1 && rel[0] in names {
      var k :| 0 <= k < |names| && names[k] == rel[0];
      assert Singles(names)[k] == rel;
    }
  }

  lemma PrefixedMem(n: string, rels: seq<seq<string>>, rel: seq<string>)
    ensures rel in Prefixed(n, rels) <==> |rel| >= 1 && rel[0] == n && rel[1..] in rels
  {
    if |rel| >= 1 && rel[0] == n && rel[1..] in rels {
      var k :| 0 <= k < |rels| && rels[k] == rel[1..];
      assert Prefixed(n, rels)[k] == rel;
    }
    if rel in Prefixed(n, rels) {
      var k :| 0 <= k < |rels| && Prefixed(n, rels)[k] == rel;
      assert rel[1..] == rels[k];
    }
  }

  /** `rel` lies under the `j`-th entry of `node`, and that entry is a directory. */
  predicate UnderChild(node: Node, j: nat, rel: seq<string>, endswith: Option<string>)
    requires node.Dir? && j < |node.children|
  {
    node.children[j].Dir? && |rel| >= 1 && rel[0] == node.children[j].name
    && rel[1..] in Files(node.children[j], endswith)
  }

  /** A path in the listing below entries `i..` lies under one of those entries. */
  lemma {:induction false} SubFilesWitness(node: Node, i: nat, endswith: Option<string>, rel: seq<string>) returns (j: nat)
    requires node.Dir? && i <= |node.children|
    requires rel in SubFiles(node, i, endswith)
    ensures i <= j < |node.children| && UnderChild(node, j, rel, endswith)
    decreases |node.children| - i
  {
    var c := node.children[i];
    var mine := if c.Dir? then Prefixed(c.name, Files(c, endswith)) else [];
    assert SubFiles(node, i, endswith) == mine + SubFiles(node, i + 1, endswith);
    if rel in mine {
      PrefixedMem(c.name, Files(c, endswith), rel);
      j := i;
    } else {
      j := SubFilesWitness(node, i + 1, endswith, rel);
    }
  }

  /** Conversely, a path under one of the entries `i..` is in the listing below them. */
  lemma {:induction false} SubFilesHas(node: Node, i: nat, j: nat, endswith: Option<string>, rel: seq<string>)
    requires node.Dir? && i <= j < |node.children|
    requires UnderChild(node, j, rel, endswith)
    ensures rel in SubFiles(node, i, endswith)
    decreases j - i
  {
    var c := node.children[i];
    var mine := if c.Dir? then Prefixed(c.name, Files(c, endswith)) else [];
    assert SubFiles(node, i, endswith) == mine + SubFiles(node, i + 1, endswith);
    if j == i {
      PrefixedMem(c.name, Files(c, endswith), rel);
    } else {
      SubFilesHas(node, i + 1, j, endswith, rel);
    }
  }




  /** Looking up a longer path goes through the first entry of its first component. */
  lemma LookupCons(node: Node, rel: seq<string>)
    requires node.Dir? && |rel| >= 1
    ensures var i := FindChild(node.children, rel[0]);
      Lookup(node, rel) == if i < 0 then None else Lookup(node.children[i], rel[1..])
  {
  }

  /** The reference listing never holds the empty path. */
  lemma FilesNonEmpty(node: Node, endswith: Option<string>)
    ensures [] !in Files(node, endswith)
  {
    if node.Dir? {
      var names := FilterNames(FileNames(node.children), endswith);
      SinglesMem(names, []);
      if [] in SubFiles(node, 0, endswith) {
        var j := SubFilesWitness(node, 0, endswith, []);
        assert false;
      }
    }
  }

  /** A path below a subdirectory has at least two components. */
  lemma SubFilesDeep(node: Node, endswith: Option<string>, rel: seq<string>)
    requires node.Dir? && rel in SubFiles(node, 0, endswith)
    ensures |rel| >= 2
  {
    var j := SubFilesWitness(node, 0, endswith, rel);
    FilesNonEmpty(node.children[j], endswith);
    assert rel[1..] != [];
  }

  /** `FilesMem` for a one-component path: a matching file entry of the directory itself. */
  lemma FilesMemOne(node: Node, endswith: Option<string>, rel: seq<string>)
    requires WellFormed(node) && node.Dir? && |rel| == 1
    ensures rel in Files(node, endswith) <==> IsFileAt(node, rel) && Matches(rel[0], endswith)
  {
    var ch := node.children;
    var names := FilterNames(FileNames(ch), endswith);
    assert Files(node, endswith) == Singles(names) + SubFiles(node, 0, endswith);
    SinglesMem(names, rel);
    FilterNamesMem(FileNames(ch), endswith, rel[0]);
    FileNamesLookup(node, rel[0]);
    assert rel == [rel[0]];
    if rel in SubFiles(node, 0, endswith) {
      SubFilesDeep(node, endswith, rel);
      assert false;
    }
  }

  /** `FilesMem` for a longer path, given that it holds for the entry named by the first component. */
  lemma FilesMemMore(node: Node, endswith: Option<string>, rel: seq<string>)
    requires WellFormed(node) && node.Dir? && |rel| >= 2
    requires var i := FindChild(node.children, rel[0]);
      i >= 0 ==> (rel[1..] in Files(node.children[i], endswith) <==>
                  IsFileAt(node.children[i], rel[1..]) && Matches(rel[|rel| - 1], endswith))
    ensures rel in Files(node, endswith) <==> IsFileAt(node, rel) && Matches(rel[|rel| - 1], endswith)
  {
    var ch := node.children;
    var names := FilterNames(FileNames(ch), endswith);
    assert Files(node, endswith) == Singles(names) + SubFiles(node, 0, endswith);
    SinglesMem(names, rel);
    LookupCons(node, rel);
    var i := FindChild(ch, rel[0]);
    if rel in SubFiles(node, 0, endswith) {
      var j := SubFilesWitness(node, 0, endswith, rel);
      UniqueChild(node, j, rel[0]);
    }
    if i >= 0 && IsFileAt(ch[i], rel[1..]) && Matches(rel[|rel| - 1], endswith) {
      assert ch[i].Dir?;
      SubFilesHas(node, 0, i, endswith, rel);
    }
  }

  /**
   * In a well-formed tree the reference listing holds exactly the
   * component paths that lead to a file whose name matches the filter.
   */
  lemma {:induction false} FilesMem(node: Node, endswith: Option<string>, rel: seq<string>)
    requires WellFormed(node)
    ensures rel in Files(node, endswith) <==> rel != [] && IsFileAt(node, rel) && Matches(rel[|rel| - 1], endswith)
    decreases node
  {
    if node.Dir? {
      if rel == [] {
        FilesNonEmpty(node, endswith);
      } else if |rel| == 1 {
        FilesMemOne(node, endswith, rel);
      } else {
        var i := FindChild(node.children, rel[0]);
        if i >= 0 {
          FilesMem(node.children[i], endswith, rel[1..]);
          assert rel[1..][|rel[1..]| - 1] == rel[|rel| - 1];
        }
        FilesMemMore(node, endswith, rel);
      }
    }
  }

  /** Looking up `cs + rel` is looking up `rel` from the entry at `cs`. */
  lemma {:induction false} LookupAppend(node: Node, cs: seq<string>, rel: seq<string>)
    requires Lookup(node, cs).Some?
    ensures Lookup(node, cs + rel) == Lookup(Lookup(node, cs).value, rel)
    decreases |cs|
  {
    if cs != [] {
      assert (cs + rel)[0] == cs[0] && (cs + rel)[1..] == cs[1..] + rel;
      var i := FindChild(node.children, cs[0]);
      LookupAppend(node.children[i], cs[1..], rel);
    } else {
      assert cs + rel == rel;
    }
  }

  /** In a well-formed tree every path that leads somewhere has valid components. */
  lemma {:induction false} LookupValid(node: Node, rel: seq<string>)
    requires WellFormed(node) && Lookup(node, rel).Some?
    ensures ValidComps(rel)
    decreases |rel|
  {
    if rel != [] {
      var i := FindChild(node.children, rel[0]);
      LookupValid(node.children[i], rel[1..]);
      assert forall k :: 1 <= k < |rel| ==> rel[k] == rel[1..][k - 1];
    }
  }

  lemma {:induction false} FileNamesDistinct(ch: seq<Node>)
    requires forall i, j :: 0 <= i < j < |ch| ==> ch[i].name != ch[j].name
    ensures Distinct(FileNames(ch))
    decreases |ch|
  {
    if ch != [] {
      FileNamesDistinct(ch[1..]);
      FileNamesMem(ch[1..], ch[0].name);
      var head := if ch[0].File? then [ch[0].name] else [];
      DistinctAppend(head, FileNames(ch[1..]));
    }
  }

  lemma {:induction false} FilterDistinct(names: seq<string>, endswith: Option<string>)
    requires Distinct(names)
    ensures Distinct(FilterNames(names, endswith))
    decreases |names|
  {
    if names != [] {
      assert names[0] !in names[1..] by {
        assert forall k :: 0 <= k < |names[1..]| ==> names[1..][k] == names[k + 1];
      }
      assert Distinct(names[1..]) by {
        assert forall k :: 0 <= k < |names[1..]| ==> names[1..][k] == names[k + 1];
      }
      FilterDistinct(names[1..], endswith);
      FilterNamesMem(names[1..], endswith, names[0]);
      var head := if Matches(names[0], endswith) then [names[0]] else [];
      DistinctAppend(head, FilterNames(names[1..], endswith));
    }
  }

  lemma PrefixedDistinct(n: string, rels: seq<seq<string>>)
    requires Distinct(rels)
    ensures Distinct(Prefixed(n, rels))
  {
    forall i, j | 0 <= i < j < |rels|
      ensures Prefixed(n, rels)[i] != Prefixed(n, rels)[j]
    {
      assert Prefixed(n, rels)[i][1..] == rels[i];
      assert Prefixed(n, rels)[j][1..] == rels[j];
    }
  }

  /** In a well-formed tree the reference listing names every file once. */
  lemma {:induction false} FilesDistinct(node: Node, endswith: Option<string>)
    requires WellFormed(node)
    ensures Distinct(Files(node, endswith))
    decreases node, 1
  {
    if node.Dir? {
      var ch := node.children;
      var names := FilterNames(FileNames(ch), endswith);
      FileNamesDistinct(ch);
      FilterDistinct(FileNames(ch), endswith);
      assert Distinct(Singles(names));
      SubFilesDistinct(node, 0, endswith);
      forall x | x in Singles(names)
        ensures x !in SubFiles(node, 0, endswith)
      {
        SinglesMem(names, x);
        if x in SubFiles(node, 0, endswith) {
          SubFilesDeep(node, endswith, x);
          assert false;
        }
      }
      DistinctAppend(Singles(names), SubFiles(node, 0, endswith));
    }
  }

  lemma {:induction false} SubFilesDistinct(node: Node, i: nat, endswith: Option<string>)
    requires WellFormed(node) && node.Dir? && i <= |node.children|
    ensures Distinct(SubFiles(node, i, endswith))
    decreases node, 0, |node.children| - i
  {
    var ch := node.children;
    if i < |ch| {
      var c := ch[i];
      var mine := if c.Dir? then Prefixed(c.name, Files(c, endswith)) else [];
      SubFilesDistinct(node, i + 1, endswith);
      if c.Dir? {
        FilesDistinct(c, endswith);
        PrefixedDistinct(c.name, Files(c, endswith));
      }
      forall x | x in mine
        ensures x !in SubFiles(node, i + 1, endswith)
      {
        PrefixedMem(c.name, Files(c, endswith), x);
        if x in SubFiles(node, i + 1, endswith) {
          var j := SubFilesWitness(node, i + 1, endswith, x);
          assert false;
        }
      }
      DistinctAppend(mine, SubFiles(node, i + 1, endswith));
    }
  }

  /** Every entry of a well-formed tree is well formed. */
  lemma {:induction false} LookupWellFormed(node: Node, rel: seq<string>)
    requires WellFormed(node) && Lookup(node, rel).Some?
    ensures WellFormed(Lookup(node, rel).value)
    decreases |rel|
  {
    if rel != [] {
      LookupWellFormed(node.children[FindChild(node.children, rel[0])], rel[1..]);
    }
  }

  /** Every path in the reference listing of a well-formed tree has valid components. */
  lemma FilesValid(node: Node, endswith: Option<string>, rel: seq<string>)
    requires WellFormed(node) && rel in Files(node, endswith)
    ensures ValidComps(rel)
  {
    FilesMem(node, endswith, rel);
    LookupValid(node, rel);
  }

  /** Below `cs`, a valid relative path is rendered into the list exactly when it is in `rels`. */
  lemma RenderAllMem(cs: seq<string>, rels: seq<seq<string>>, rel: seq<string>)
    requires ValidComps(cs) && ValidComps(rel)
    requires forall k :: 0 <= k < |rels| ==> ValidComps(rels[k])
    ensures Render(cs + rel) in RenderAll(cs, rels) <==> rel in rels
  {
    ValidAppend(cs, rel);
    if Render(cs + rel) in RenderAll(cs, rels) {
      var k :| 0 <= k < |rels| && RenderAll(cs, rels)[k] == Render(cs + rel);
      ValidAppend(cs, rels[k]);
      RenderInjective(cs + rel, cs + rels[k]);
      assert rel == (cs + rel)[|cs|..] == (cs + rels[k])[|cs|..] == rels[k];
    }
    if rel in rels {
      var k :| 0 <= k < |rels| && rels[k] == rel;
      assert RenderAll(cs, rels)[k] == Render(cs + rel);
    }
  }

  /** Distinct valid relative paths below `cs` render to distinct paths. */
  lemma RenderAllDistinct(cs: seq<string>, rels: seq<seq<string>>)
    requires ValidComps(cs) && Distinct(rels)
    requires forall k :: 0 <= k < |rels| ==> ValidComps(rels[k])
    ensures Distinct(RenderAll(cs, rels))
  {
    forall i, j | 0 <= i < j < |rels|
      ensures RenderAll(cs, rels)[i] != RenderAll(cs, rels)[j]
    {
      ValidAppend(cs, rels[i]);
      ValidAppend(cs, rels[j]);
      RenderInjective(cs + rels[i], cs + rels[j]);
      assert (cs + rels[i])[|cs|..] == rels[i];
      assert (cs + rels[j])[|cs|..] == rels[j];
    }
  }

  /**
   * Walking the directory at `cs` in a well-formed tree lists each file
   * below it whose name matches the filter exactly once, and nothing else.
   */
  lemma WalkListing(fs: Node, cs: seq<string>, endswith: Option<string>)
    requires WellFormed(fs) && ValidComps(cs) && IsDirAt(fs, cs)
    ensures var out := WalkFiles(OsWalk(Render(cs), Lookup(fs, cs).value), endswith);
      && Distinct(out)
      && forall rel :: ValidComps(rel) ==>
           (Render(cs + rel) in out <==> rel != [] && IsFileAt(fs, cs + rel) && Matches(rel[|rel| - 1], endswith))
  {
    var d := Lookup(fs, cs).value;
    var files := Files(d, endswith);
    LookupWellFormed(fs, cs);
    WalkRender(cs, d, endswith);
    forall k | 0 <= k < |files|
      ensures ValidComps(files[k])
    {
      FilesValid(d, endswith, files[k]);
    }
    FilesDistinct(d, endswith);
    RenderAllDistinct(cs, files);
    forall rel | ValidComps(rel)
      ensures Render(cs + rel) in RenderAll(cs, files) <==> rel != [] && IsFileAt(fs, cs + rel) && Matches(rel[|rel| - 1], endswith)
    {
      RenderAllMem(cs, files, rel);
      FilesMem(d, endswith, rel);
      LookupAppend(fs, cs, rel);
    }
  }

  /** Entry names in a well-formed directory are valid names. */
  lemma NamesValid(node: Node)
    requires WellFormed(node) && node.Dir?
    ensures forall n :: n in FileNames(node.children) ==> ValidName(n)
    ensures forall n :: n in DirNames(node.children) ==> ValidName(n)
  {
    forall n | n in FileNames(node.children)
      ensures ValidName(n)
    {
      FileNamesMem(node.children, n);
    }
    forall n | n in DirNames(node.children)
      ensures ValidName(n)
    {
      DirNamesMem(node.children, n);
    }
  }

  /** Below `cs`, a valid name is joined into the list exactly when it is one of `names`. */
  lemma JoinAllMem(cs: seq<string>, names: seq<string>, n: string)
    requires ValidComps(cs) && ValidName(n)
    requires forall m :: m in names ==> ValidName(m)
    ensures Render(cs + [n]) in JoinAll(Render(cs), names) <==> n in names
  {
    RenderJoin(cs, n);
    assert ValidComps(cs + [n]) by { ValidAppend(cs, [n]); }
    if Render(cs + [n]) in JoinAll(Render(cs), names) {
      var k :| 0 <= k < |names| && JoinAll(Render(cs), names)[k] == Render(cs + [n]);
      RenderJoin(cs, names[k]);
      assert ValidComps(cs + [names[k]]) by { ValidAppend(cs, [names[k]]); }
      RenderInjective(cs + [n], cs + [names[k]]);
      assert (cs + [n])[|cs|] == n && (cs + [names[k]])[|cs|] == names[k];
    }
    if n in names {
      var k :| 0 <= k < |names| && names[k] == n;
      assert JoinAll(Render(cs), names)[k] == Render(cs + [n]);
    }
  }

  /** Distinct valid names joined below `cs` give distinct paths. */
  lemma JoinAllDistinct(cs: seq<string>, names: seq<string>)
    requires ValidComps(cs) && Distinct(names)
    requires forall m :: m in names ==> ValidName(m)
    ensures Distinct(JoinAll(Render(cs), names))
  {
    forall i, j | 0 <= i < j < |names|
      ensures JoinAll(Render(cs), names)[i] != JoinAll(Render(cs), names)[j]
    {
      RenderJoin(cs, names[i]);
      RenderJoin(cs, names[j]);
      assert ValidComps(cs + [names[i]]) by { ValidAppend(cs, [names[i]]); }
      assert ValidComps(cs + [names[j]]) by { ValidAppend(cs, [names[j]]); }
      RenderInjective(cs + [names[i]], cs + [names[j]]);
      assert (cs + [names[i]])[|cs|] == names[i] && (cs + [names[j]])[|cs|] == names[j];
    }
  }

  lemma {:induction false} DirNamesDistinct(ch: seq<Node>)
    requires forall i, j :: 0 <= i < j < |ch| ==> ch[i].name != ch[j].name
    ensures Distinct(DirNames(ch))
    decreases |ch|
  {
    if ch != [] {
      DirNamesDistinct(ch[1..]);
      DirNamesMem(ch[1..], ch[0].name);
      var head := if ch[0].Dir? then [ch[0].name] else [];
      DistinctAppend(head, DirNames(ch[1..]));
    }
  }

  /** The walk of a directory begins with its own step. */
  lemma WalkFilesFirst(top: string, node: Node, endswith: Option<string>)
    requires node.Dir?
    ensures WalkFiles(OsWalk(top, node), endswith)
         == JoinAll(top, FilterNames(FileNames(node.children), endswith)) + WalkFiles(SubWalks(top, node, 0), endswith)
  {
    assert OsWalk(top, node)[1..] == SubWalks(top, node, 0);
  }
}

/**
 * The parts of `pathlib.PurePosixPath` that the filename helpers use:
 * `name`, `suffix` and `stem`.
 */
module PurePath {
  import opened Strings
  import opened PosixPath

  /**
   * `Path(p).name`: the last component of `p`. pathlib drops empty
   * components (repeated or trailing '/') and "." components, so those are
   * skipped; the root and "" have the name "".
   */
  function Name(p: string): (r: string)
    ensures '/' !in r && r != "."
    ensures |r| <= |p|
    decreases |p|
  {
    var i := RFind(p, '/');
    var last := p[i + 1..];
    if last != "" && last != "." then last
    else if i < 0 then ""
    else Name(p[..i])
  }

  /** `Path(...).suffix` of a name: from its last '.', unless that dot is first or last. */
  function Suffix(name: string): (r: string)
    ensures r == "" || (|r| >= 2 && r[0] == '.' && '.' !in r[1..])
    ensures EndsWith(name, r)
    ensures |r| < |name| || r == ""
  {
    var i := RFind(name, '.');
    if 0 < i < |name| - 1 then name[i..] else ""
  }

  /** `Path(...).stem` of a name: the name without its suffix. */
  function Stem(name: string): (r: string)
    ensures r + Suffix(name) == name
    ensures name != "" ==> r != ""
  {
    var i := RFind(name, '.');
    if 0 < i < |name| - 1 then name[..i] else name
  }

  /** The name of a path written as a rendered component list is its last component. */
  lemma NameRender(cs: seq<string>)
    requires ValidComps(cs)
    ensures Name(Render(cs)) == if cs == [] then "" else cs[|cs| - 1]
  {
    if cs != [] {
      BasenameRender(cs);
      assert ValidName(cs[|cs| - 1]);
      NameOfBasename(Render(cs));
    }
  }

  /** When the text after the last '/' is a valid name, that is the path's name. */
  lemma NameOfBasename(p: string)
    requires ValidName(Basename(p))
    ensures Name(p) == Basename(p)
  {
  }

  /** A name with a dot after its first character and before its last has a suffix starting there. */
  lemma SuffixAt(name: string, i: int)
    requires 0 < i < |name| - 1 && name[i] == '.'
    requires '.' !in name[i + 1..]
    ensures Suffix(name) == name[i..] && Stem(name) == name[..i]
  {
    assert forall j :: i < j < |name| ==> name[j] == name[i + 1..][j - i - 1];
    RFindAt(name, '.', i);
  }

  /** A name without a dot after its first character has no suffix, and is its own stem. */
  lemma NoSuffix(name: string)
    requires forall j :: 0 < j < |name| ==> name[j] != '.'
    ensures Suffix(name) == "" && Stem(name) == name
  {
  }

  /** The name of `dir + "/" + file` is `file` when `file` is a valid name. */
  lemma NameJoin(dir: string, file: string)
    requires file != "" && file != "." && '/' !in file
    ensures Name(dir + "/" + file) == file
  {
    var p := dir + "/" + file;
    RFindAppend(dir, '/', file);
    assert p[|dir| + 1..] == file;
  }

  /** `base + "." + ext` has suffix "." + ext and stem `base` when `ext` holds no dot. */
  lemma SuffixJoin(base: string, ext: string)
    requires base != "" && ext != "" && '.' !in ext
    ensures Suffix(base + "." + ext) == "." + ext
    ensures Stem(base + "." + ext) == base
  {
    var n := base + "." + ext;
    RFindAppend(base, '.', ext);
    assert n[|base|..] == "." + ext;
    assert n[..|base|] == base;
  }

  /** The name of `dir/base.ext` is `base.ext`, with stem `base` and suffix `.ext`. */
  lemma NameStemSuffix(dir: string, base: string, ext: string)
    requires base != "" && ext != "" && '.' !in ext && '/' !in base && '/' !in ext
    ensures Name(dir + "/" + base + "." + ext) == base + "." + ext
    ensures Stem(base + "." + ext) == base && Suffix(base + "." + ext) == "." + ext
  {
    var name := base + "." + ext;
    assert '/' !in name;
    assert dir + "/" + base + "." + ext == dir + "/" + name;
    NameJoin(dir, name);
    SuffixJoin(base, ext);
  }
}

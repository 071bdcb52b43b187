/**
 * py_utility/file.py: the older filename helpers. `get_file_name` here
 * replaces only a `None` extension by the original suffix, where the
 * newer py_utility/file_wrapper.py replaces every falsy one.
 *
 * Reading and writing files and loading JSON are file I/O and are not
 * modelled.
 */
module FileHelpers {
  import opened Strings
  import opened PurePath
  import opened Wrappers
  import FileWrapper

  /** `get_file_name_without_extension`: the stem of the path's last component. */
  function GetFileNameWithoutExtension(path: string): (r: string)
    ensures r + Suffix(Name(path)) == Name(path)
  {
    Stem(Name(path))
  }

  /**
   * `get_file_name(path_file, tail, without_extension, set_extension)`:
   * the stem, then `tail`, then nothing when `without_extension`, else
   * `set_extension`, which defaults to the original suffix only when it is
   * `None`.
   */
  function GetFileName(path: string, tail: string, withoutExtension: bool, setExtension: Option<string>): (r: string)
    ensures StartsWith(r, GetFileNameWithoutExtension(path) + tail)
    ensures withoutExtension ==> |r| == |GetFileNameWithoutExtension(path)| + |tail|
    ensures !withoutExtension ==> EndsWith(r, if setExtension.Some? then setExtension.value else Suffix(Name(path)))
  {
    var ext := if setExtension == None then Suffix(Name(path)) else setExtension.value;
    if withoutExtension then Stem(Name(path)) + tail
    else Stem(Name(path)) + tail + ext
  }

  /**
   * With the defaults for the extension, the new name is the last
   * component with `tail` spliced in just before its suffix: removing the
   * tail gives the component back.
   */
  lemma TailBeforeSuffix(path: string, tail: string)
    ensures var s, r := GetFileNameWithoutExtension(path), GetFileName(path, tail, false, None);
      && |r| == |Name(path)| + |tail|
      && r[|s|..|s| + |tail|] == tail
      && r[..|s|] + r[|s| + |tail|..] == Name(path)
  {
    var s, x := GetFileNameWithoutExtension(path), Suffix(Name(path));
    var r := GetFileName(path, tail, false, None);
    assert r == s + tail + x;
    assert r[..|s|] == s;
    assert r[|s|..|s| + |tail|] == tail;
    assert r[|s| + |tail|..] == x;
  }

  /** With the defaults the result is the last component; an explicit "" extension drops the suffix. */
  lemma DefaultsAndEmptyExtension(path: string)
    ensures GetFileName(path, "", false, None) == Name(path)
    ensures GetFileName(path, "", false, Some("")) == GetFileNameWithoutExtension(path)
  {
    assert Stem(Name(path)) + "" + Suffix(Name(path)) == Name(path);
    assert Stem(Name(path)) + "" + "" == Stem(Name(path));
  }

  /**
   * The two `get_file_name` variants disagree exactly when an extension of
   * "" is asked for, the extension is kept, and the path has a suffix: this
   * variant then drops the suffix and py_utility/file_wrapper.py keeps it.
   */
  lemma VariantsDiffer(path: string, tail: string, withoutExtension: bool, setExtension: Option<string>)
    ensures FileWrapper.GetFileName(path, tail, setExtension, withoutExtension) != GetFileName(path, tail, withoutExtension, setExtension)
        <==> !withoutExtension && setExtension == Some("") && Suffix(Name(path)) != ""
  {
    var head := Stem(Name(path)) + tail;
    if !withoutExtension && setExtension == Some("") {
      assert GetFileName(path, tail, withoutExtension, setExtension) == head + "";
      assert FileWrapper.GetFileName(path, tail, setExtension, withoutExtension) == head + Suffix(Name(path));
      assert |head + Suffix(Name(path))| == |head| + |Suffix(Name(path))|;
    }
  }

  /** `get_file_name` on a path `dir/base.ext`. */
  lemma GetFileNameParts(dir: string, base: string, ext: string, tail: string, withoutExtension: bool, setExtension: Option<string>)
    requires base != "" && ext != "" && '.' !in ext && '/' !in base && '/' !in ext
    ensures GetFileName(dir + "/" + base + "." + ext, tail, withoutExtension, setExtension)
         == base + tail + (if withoutExtension then "" else if setExtension.Some? then setExtension.value else "." + ext)
  {
    NameStemSuffix(dir, base, ext);
  }

  /** The path of the truth table in utils_test.py has the stem "novel" and the suffix ".txt". */
  lemma NovelParts(p: string)
    requires p == "Corpus 5 Million/novel/novel.txt"
    ensures Stem(Name(p)) == "novel" && Suffix(Name(p)) == ".txt"
  {
    assert p == "Corpus 5 Million/novel" + "/" + "novel" + "." + "txt";
    assert ".txt" == "." + "txt";
    NameStemSuffix("Corpus 5 Million/novel", "novel", "txt");
  }

  /** The four rows of the truth table in utils_test.py for the path "Corpus 5 Million/novel/novel.txt" with no tail. */
  lemma TruthTable(p: string)
    requires p == "Corpus 5 Million/novel/novel.txt"
    ensures GetFileName(p, "", false, None) == "novel.txt"
    ensures GetFileName(p, "", false, Some(".csv")) == "novel.csv"
    ensures GetFileName(p, "", true, None) == "novel"
    ensures GetFileName(p, "", true, Some(".csv")) == "novel"
  {
    NovelParts(p);
  }

  /** The four rows of the same truth table with the tail "_test". */
  lemma TruthTableTail(p: string)
    requires p == "Corpus 5 Million/novel/novel.txt"
    ensures GetFileName(p, "_test", false, None) == "novel_test.txt"
    ensures GetFileName(p, "_test", false, Some(".csv")) == "novel_test.csv"
    ensures GetFileName(p, "_test", true, None) == "novel_test"
    ensures GetFileName(p, "_test", true, Some(".csv")) == "novel_test"
  {
    NovelParts(p);
  }
}

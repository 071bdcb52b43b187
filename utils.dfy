/**
 * utils.py: `get_file_name`, the only helper of this file that differs
 * from its copy elsewhere. Before computing the name it calls `log_level`
 * when `without_extension` is set together with a truthy `set_extension`;
 * `log_level` is neither defined nor imported in utils.py, so that call
 * raises `NameError`. The path helpers of utils.py are copies of those in
 * py_utility/path.py and are modelled there.
 */
module Utils {
  import opened PurePath
  import opened Wrappers
  import FileWrapper
  import FileHelpers

  /** The exception `get_file_name` can raise: a name that is not bound. */
  datatype Error = NameError(name: string)

  /**
   * `get_file_name(path_file, tail, without_extension, set_extension)` of
   * utils.py. The call fails, with `NameError` on `log_level`, exactly when
   * `without_extension` meets a truthy `set_extension`; otherwise it
   * returns what the py_utility/file.py variant returns.
   */
  function GetFileName(path: string, tail: string, withoutExtension: bool, setExtension: Option<string>): (r: Result<string, Error>)
    ensures r.Failure? <==> withoutExtension && setExtension.Some? && setExtension.value != ""
    ensures r.Failure? ==> r.error == NameError("log_level")
    ensures r.Success? ==> r.value == FileHelpers.GetFileName(path, tail, withoutExtension, setExtension)
  {
    if withoutExtension && FileWrapper.Truthy(setExtension) then Failure(NameError("log_level"))
    else
      var ext := if setExtension == None then Suffix(Name(path)) else setExtension.value;
      if withoutExtension then Success(Stem(Name(path)) + tail)
      else Success(Stem(Name(path)) + tail + ext)
  }

  /** With `without_extension` and no extension, or "" as extension, the result is stem + tail. */
  lemma WithoutExtension(path: string, tail: string, setExtension: Option<string>)
    requires setExtension == None || setExtension == Some("")
    ensures GetFileName(path, tail, true, setExtension) == Success(FileHelpers.GetFileNameWithoutExtension(path) + tail)
  {
  }

  /**
   * The truth table of utils_test.py against this variant: the six rows
   * without the conflicting combination hold, and the two rows that ask
   * for both `without_extension` and ".csv" raise `NameError`.
   */
  lemma TruthTable(p: string)
    requires p == "Corpus 5 Million/novel/novel.txt"
    ensures GetFileName(p, "", false, None) == Success("novel.txt")
    ensures GetFileName(p, "", false, Some(".csv")) == Success("novel.csv")
    ensures GetFileName(p, "", true, None) == Success("novel")
    ensures GetFileName(p, "", true, Some(".csv")) == Failure(NameError("log_level"))
    ensures GetFileName(p, "_test", false, None) == Success("novel_test.txt")
    ensures GetFileName(p, "_test", false, Some(".csv")) == Success("novel_test.csv")
    ensures GetFileName(p, "_test", true, None) == Success("novel_test")
    ensures GetFileName(p, "_test", true, Some(".csv")) == Failure(NameError("log_level"))
  {
    FileHelpers.TruthTable(p);
    FileHelpers.TruthTableTail(p);
  }
}

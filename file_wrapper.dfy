/**
 * py_utility/file_wrapper.py: filename transforms over pathlib's stem and
 * suffix, and the line splitting of `stream_file_by_line`.
 *
 * Reading, writing and JSON loading are file I/O and are not modelled; the
 * line splitting is modelled on the text after decoding, in which every
 * newline is already a single '\n'.
 */
module FileWrapper {
  import opened Strings
  import opened PurePath
  import opened Wrappers

  /** `get_file_name_without_extension`: the last component without its final suffix. */
  function GetFileNameWithoutExtension(path: string): (r: string)
    ensures r + Suffix(Name(path)) == Name(path)
    ensures Name(path) != "" ==> r != ""
  {
    Stem(Name(path))
  }

  /** Python truthiness of an optional string: `None` and "" are false. */
  predicate Truthy(s: Option<string>) {
    s.Some? && s.value != ""
  }

  /**
   * `get_file_name(path, tail, set_extension, without_extension)`: the stem,
   * then `tail`, then no extension when `without_extension`, else
   * `set_extension` if it is truthy, else the original suffix. The new
   * name always begins with the stem and the tail, and unless
   * `without_extension` it ends with the extension chosen.
   */
  function GetFileName(path: string, tail: string, setExtension: Option<string>, withoutExtension: bool): (r: string)
    ensures StartsWith(r, GetFileNameWithoutExtension(path) + tail)
    ensures withoutExtension ==> |r| == |GetFileNameWithoutExtension(path)| + |tail|
    ensures !withoutExtension ==> EndsWith(r, if Truthy(setExtension) then setExtension.value else Suffix(Name(path)))
  {
    var fileName := Stem(Name(path));
    if withoutExtension then fileName + tail
    else
      var ext := if !Truthy(setExtension) then Suffix(Name(path)) else setExtension.value;
      fileName + tail + ext
  }

  /** With the default arguments the result is the path's last component. */
  lemma DefaultIsName(path: string)
    ensures GetFileName(path, "", None, false) == Name(path)
  {
    assert GetFileName(path, "", None, false) == Stem(Name(path)) + "" + Suffix(Name(path));
  }

  /** `without_extension` gives exactly stem + tail, whatever `set_extension` is. */
  lemma WithoutExtensionWins(path: string, tail: string, setExtension: Option<string>)
    ensures GetFileName(path, tail, setExtension, true) == GetFileNameWithoutExtension(path) + tail
  {
  }

  /** A falsy `set_extension` (None or "") keeps the original suffix after the tail. */
  lemma FalsyExtensionKeepsSuffix(path: string, tail: string, setExtension: Option<string>)
    requires !Truthy(setExtension)
    ensures GetFileName(path, tail, setExtension, false) == GetFileNameWithoutExtension(path) + tail + Suffix(Name(path))
    ensures tail == "" ==> GetFileName(path, tail, setExtension, false) == Name(path)
  {
    assert Stem(Name(path)) + "" + Suffix(Name(path)) == Name(path);
  }

  /** A truthy `set_extension` is appended as given: no dot is added or removed. */
  lemma ExtensionVerbatim(path: string, tail: string, ext: string)
    requires ext != ""
    ensures GetFileName(path, tail, Some(ext), false) == GetFileNameWithoutExtension(path) + tail + ext
    ensures EndsWith(GetFileName(path, tail, Some(ext), false), ext)
  {
    var r := GetFileName(path, tail, Some(ext), false);
    assert r[|r| - |ext|..] == ext;
  }

  /** `get_file_name` on a path `dir/base.ext`. */
  lemma GetFileNameParts(dir: string, base: string, ext: string, tail: string, setExtension: Option<string>, withoutExtension: bool)
    requires base != "" && ext != "" && '.' !in ext && '/' !in base && '/' !in ext
    ensures GetFileNameWithoutExtension(dir + "/" + base + "." + ext) == base
    ensures GetFileName(dir + "/" + base + "." + ext, tail, setExtension, withoutExtension)
         == base + tail + (if withoutExtension then "" else if Truthy(setExtension) then setExtension.value else "." + ext)
  {
    NameStemSuffix(dir, base, ext);
  }

  /** The path of the module's tests has the stem "filename" and the suffix ".extension". */
  lemma TestPathParts(p: string)
    requires p == "directory/filename.extension"
    ensures Stem(Name(p)) == "filename" && Suffix(Name(p)) == ".extension"
  {
    assert p == "directory" + "/" + "filename" + "." + "extension";
    assert ".extension" == "." + "extension";
    NameStemSuffix("directory", "filename", "extension");
  }

  /** The names the module's tests expect, in their parts: stem, tail and extension. */
  lemma TestNames()
    ensures "filename" + "_tail" + ".newext" == "filename_tail.newext"
    ensures "filename" + "_tail" + ".extension" == "filename_tail.extension"
  {
  }

  /** The four expectations of the module's tests on the path `p`, "directory/filename.extension". */
  lemma TestCases(p: string)
    requires p == "directory/filename.extension"
    ensures GetFileNameWithoutExtension(p) == "filename"
    ensures GetFileName(p, "_tail", Some(".newext"), false) == "filename_tail.newext"
    ensures GetFileName(p, "", None, true) == "filename"
    ensures GetFileName(p, "_tail", None, false) == "filename_tail.extension"
  {
    TestPathParts(p);
    TestNames();
    assert GetFileName(p, "_tail", Some(".newext"), false) == "filename" + "_tail" + ".newext";
    assert GetFileName(p, "_tail", None, false) == "filename" + "_tail" + ".extension";
  }

  /**
   * Iterating over a text file: each line keeps its '\n'; only the last line
   * may lack one; empty text has no lines.
   */
  function ReadLines(text: string): (lines: seq<string>)
    ensures text != "" <==> |lines| >= 1
    decreases |text|
  {
    if text == "" then []
    else
      var i := Find(text, '\n');
      if i < 0 then [text] else [text[..i + 1]] + ReadLines(text[i + 1..])
  }

  /** The characters `rstrip('\r\n')` removes. */
  const LineEnds: set<char> := {'\r', '\n'}

  /** `stream_file_by_line`: every line of the text with its trailing '\r' and '\n' stripped. */
  function StreamFileByLine(text: string): (lines: seq<string>)
    ensures |lines| == |ReadLines(text)|
    ensures forall k :: 0 <= k < |lines| ==> lines[k] == [] || lines[k][|lines[k]| - 1] !in LineEnds
  {
    StripLines(ReadLines(text))
  }

  /** Each line with its trailing '\r' and '\n' stripped. */
  function StripLines(raw: seq<string>): (lines: seq<string>)
    ensures |lines| == |raw|
    ensures forall k :: 0 <= k < |lines| ==> lines[k] == RStrip(raw[k], LineEnds)
  {
    if raw == [] then [] else [RStrip(raw[0], LineEnds)] + StripLines(raw[1..])
  }

  /** The lines read from a text, put back together, are the text. */
  lemma {:induction false} ReadLinesConcat(text: string)
    ensures JoinWith(ReadLines(text), "") == text
    decreases |text|
  {
    if text != "" {
      var i := Find(text, '\n');
      if i >= 0 {
        var line, rest := text[..i + 1], text[i + 1..];
        ReadLinesConcat(rest);
        assert ReadLines(text) == [line] + ReadLines(rest);
        ConcatCons(line, ReadLines(rest));
        Halves(text, i + 1);
      } else {
        assert ReadLines(text) == [text];
      }
    }
  }

  /** The first line read ends at the first '\n' and holds no other. */
  lemma FirstLine(text: string, i: int)
    requires i == Find(text, '\n') && i >= 0
    ensures ReadLines(text) == [text[..i + 1]] + ReadLines(text[i + 1..])
    ensures text[..i + 1][i] == '\n' && '\n' !in text[..i + 1][..i]
  {
    assert text[..i + 1][..i] == text[..i];
    assert forall j :: 0 <= j < i ==> text[..i][j] == text[j];
  }

  /** A line as `readline` returns it: not empty, one '\n' at its end, or none if it is the last. */
  predicate LineShaped(line: string, last: bool) {
    line != "" && (!last ==> line[|line| - 1] == '\n') && '\n' !in line[..|line| - 1]
  }

  /** Only the last line read may lack its '\n'; no line has a '\n' before its end. */
  lemma {:induction false} ReadLinesShape(text: string, k: int)
    requires 0 <= k < |ReadLines(text)|
    ensures LineShaped(ReadLines(text)[k], k == |ReadLines(text)| - 1)
    decreases |text|
  {
    var i := Find(text, '\n');
    if i >= 0 {
      var rest := text[i + 1..];
      assert ReadLines(text) == [text[..i + 1]] + ReadLines(rest);
      if k > 0 {
        ReadLinesShape(rest, k - 1);
        assert ReadLines(text)[k] == ReadLines(rest)[k - 1];
      } else {
        FirstLineShaped(text, i);
      }
    } else {
      assert ReadLines(text) == [text];
      LastLineShaped(text);
    }
  }

  lemma FirstLineShaped(text: string, i: int)
    requires i == Find(text, '\n') && i >= 0
    ensures LineShaped(text[..i + 1], false)
  {
    FirstLine(text, i);
  }

  lemma LastLineShaped(text: string)
    requires text != "" && Find(text, '\n') < 0
    ensures LineShaped(text, true)
  {
    assert forall j :: 0 <= j < |text| - 1 ==> text[..|text| - 1][j] == text[j];
  }

  /** The first stream line and the rest, for a text whose first line ends in '\n'. */
  lemma StreamSplit(text: string, i: int)
    requires i == Find(text, '\n') && i >= 0
    ensures StreamFileByLine(text) == [RStrip(text[..i + 1], LineEnds)] + StreamFileByLine(text[i + 1..])
  {
    var raw := ReadLines(text);
    assert raw == [text[..i + 1]] + ReadLines(text[i + 1..]);
    assert raw[1..] == ReadLines(text[i + 1..]);
  }


  /** A line without '\r' and with at most a final '\n' loses exactly that '\n'. */
  lemma StripOneNewline(line: string, hasNewline: bool)
    requires '\r' !in line
    requires hasNewline ==> line != "" && line[|line| - 1] == '\n' && '\n' !in line[..|line| - 1]
    requires !hasNewline ==> '\n' !in line
    ensures RStrip(line, LineEnds) == if hasNewline then line[..|line| - 1] else line
  {
    var r := RStrip(line, LineEnds);
    if hasNewline {
      var body := line[..|line| - 1];
      assert forall j :: 0 <= j < |body| ==> body[j] == line[j] && line[j] !in LineEnds;
      assert |r| >= |body|;
    } else {
      assert forall j :: 0 <= j < |line| ==> line[j] !in LineEnds;
    }
  }

  /** Both sides of a '\r'-free text are '\r'-free. */
  lemma NoReturnSplit(text: string, i: int)
    requires '\r' !in text && 0 <= i < |text|
    ensures '\r' !in text[..i + 1] && '\r' !in text[i + 1..]
  {
    assert forall j :: 0 <= j <= i ==> text[..i + 1][j] == text[j];
    assert forall j :: i + 1 <= j < |text| ==> text[i + 1..][j - i - 1] == text[j];
  }

  /** The text without one final '\n', if it has one. */
  function ChompNewline(text: string): (r: string)
    ensures r == text || r + "\n" == text
  {
    if text != "" && text[|text| - 1] == '\n' then text[..|text| - 1] else text
  }

  /** Dropping the final '\n' of `line + "\n" + rest` touches only `rest` when it is not empty. */
  lemma ChompCons(line: string, rest: string)
    requires rest != ""
    ensures ChompNewline(line + "\n" + rest) == line + "\n" + ChompNewline(rest)
  {
    var text := line + "\n" + rest;
    assert text[|text| - 1] == rest[|rest| - 1];
    if rest[|rest| - 1] == '\n' {
      assert text[..|text| - 1] == line + "\n" + rest[..|rest| - 1];
    }
  }

  /** A last line without '\n' streams as itself. */
  lemma StreamJoinLast(text: string)
    requires '\r' !in text && text != "" && Find(text, '\n') < 0
    ensures JoinWith(StreamFileByLine(text), "\n") == ChompNewline(text)
  {
    assert ReadLines(text) == [text];
    StripOneNewline(text, false);
    assert text[|text| - 1] != '\n';
  }

  /** The first stream line of a '\r'-free text is the text up to its first '\n'. */
  lemma StreamFirst(text: string, i: int)
    requires '\r' !in text && i == Find(text, '\n') && i >= 0
    ensures StreamFileByLine(text) == [text[..i]] + StreamFileByLine(text[i + 1..])
  {
    FirstLine(text, i);
    NoReturnSplit(text, i);
    StripOneNewline(text[..i + 1], true);
    assert text[..i + 1][..i] == text[..i];
    StreamSplit(text, i);
  }

  /** One line of `StreamJoin`: the first line, then what the rest already satisfies. */
  lemma StreamJoinStep(text: string, i: int)
    requires '\r' !in text && i == Find(text, '\n') && i >= 0
    requires JoinWith(StreamFileByLine(text[i + 1..]), "\n") == ChompNewline(text[i + 1..])
    ensures JoinWith(StreamFileByLine(text), "\n") == ChompNewline(text)
  {
    var line, rest := text[..i], text[i + 1..];
    StreamFirst(text, i);
    SplitAt(text, i);
    if rest != "" {
      JoinCons(line, StreamFileByLine(rest), "\n");
      ChompCons(line, rest);
    }
  }

  /** For '\r'-free text, the stream lines joined with '\n' give the text back, less one final '\n'. */
  lemma {:induction false} StreamJoin(text: string)
    requires '\r' !in text
    ensures JoinWith(StreamFileByLine(text), "\n") == ChompNewline(text)
    decreases |text|
  {
    if text != "" {
      var i := Find(text, '\n');
      if i < 0 {
        StreamJoinLast(text);
      } else {
        NoReturnSplit(text, i);
        StreamJoin(text[i + 1..]);
        StreamJoinStep(text, i);
      }
    }
  }

  /** Lines free of '\r' and '\n', joined with '\n', stream back as themselves when the last is not empty. */
  lemma {:induction false} StreamOfJoin(lines: seq<string>)
    requires |lines| >= 1 && lines[|lines| - 1] != ""
    requires forall k :: 0 <= k < |lines| ==> '\n' !in lines[k] && '\r' !in lines[k]
    ensures StreamFileByLine(JoinWith(lines, "\n")) == lines
    decreases |lines|
  {
    var text := JoinWith(lines, "\n");
    if |lines| == 1 {
      FindNone(text, '\n');
      assert ReadLines(text) == [text];
      StripOneNewline(text, false);
    } else {
      var rest := JoinWith(lines[1..], "\n");
      assert text == lines[0] + "\n" + rest;
      FindAppend(lines[0], '\n', rest);
      var i := |lines[0]|;
      assert text[..i + 1] == lines[0] + "\n";
      assert text[i + 1..] == rest;
      StreamSplit(text, i);
      assert (lines[0] + "\n")[..i] == lines[0];
      StripOneNewline(lines[0] + "\n", true);
      StreamOfJoin(lines[1..]);
      assert lines == [lines[0]] + lines[1..];
    }
  }

  /** The module's test: three lines, the last without '\n'. */
  lemma TestStream()
    ensures StreamFileByLine("line1\nline2\nline3") == ["line1", "line2", "line3"]
  {
    var lines := ["line1", "line2", "line3"];
    assert JoinWith(lines, "\n") == "line1\nline2\nline3";
    StreamOfJoin(lines);
  }
}

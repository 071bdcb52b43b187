/**
 * The `posixpath` rules behind `os.path.join`, `basename` and `dirname`,
 * and absolute normalised paths as sequences of components.
 *
 * `os.path.abspath` depends on the process's current directory; the model
 * takes paths that are already absolute and normalised (`AbsNorm`), on
 * which `abspath` is the identity.
 */
module PosixPath {
  import opened Strings

  /** `os.path.join(a, b)`: an absolute `b` replaces `a`; otherwise one '/' separates them. */
  function Join(a: string, b: string): (r: string)
  {
    if |b| > 0 && b[0] == '/' then b
    else if a == "" || a[|a| - 1] == '/' then a + b
    else a + "/" + b
  }

  /** `os.path.basename(p)`: everything after the last '/'. */
  function Basename(p: string): (r: string)
    ensures '/' !in r
    ensures EndsWith(p, r)
  {
    p[RFind(p, '/') + 1..]
  }

  predicate AllSlashes(s: string) {
    forall k :: 0 <= k < |s| ==> s[k] == '/'
  }

  /** `os.path.dirname(p)`: the head up to the last '/', with trailing slashes removed unless it is all slashes. */
  function Dirname(p: string): (r: string)
    ensures StartsWith(p, r)
    ensures '/' in p ==> r != ""
  {
    var head := p[..RFind(p, '/') + 1];
    if head != "" && !AllSlashes(head) then RStrip(head, {'/'}) else head
  }

  /** `dirname` applied `k` times (none when `k <= 0`). */
  function DirnameN(p: string, k: int): string
    decreases k
  {
    if k <= 0 then p else DirnameN(Dirname(p), k - 1)
  }

  /** A directory entry name: not empty, not "." or "..", no '/'. */
  predicate ValidName(n: string) {
    n != "" && n != "." && n != ".." && '/' !in n
  }

  predicate ValidComps(cs: seq<string>) {
    forall i :: 0 <= i < |cs| ==> ValidName(cs[i])
  }

  /** The path of the components `cs` below the root "/", built with `os.path.join`. */
  function Render(cs: seq<string>): (r: string)
    ensures |r| > 0 && r[0] == '/'
  {
    if cs == [] then "/" else Join(Render(cs[..|cs| - 1]), cs[|cs| - 1])
  }

  /** The components of a path: "/" has none, otherwise the '/'-separated pieces after the leading '/'. */
  function Components(p: string): seq<string> {
    if p == "/" then []
    else if |p| > 0 && p[0] == '/' then Split(p[1..], '/')
    else Split(p, '/')
  }

  /** An absolute path with no empty, "." or ".." component and no trailing '/'. */
  predicate AbsNorm(p: string) {
    |p| > 0 && p[0] == '/' && ValidComps(Components(p))
  }

  /** Drop `k` trailing components (none when `k <= 0`), never past the root. */
  function Up(cs: seq<string>, k: int): (r: seq<string>)
    ensures k <= 0 ==> r == cs
    ensures k > 0 ==> |r| == (if k >= |cs| then 0 else |cs| - k)
    ensures r == cs[..|r|]
  {
    if k <= 0 then cs else if k >= |cs| then [] else cs[..|cs| - k]
  }

  /** The path of a non-empty component list ends in its last component, not in '/'. */
  lemma RenderLast(cs: seq<string>)
    requires ValidComps(cs) && cs != []
    ensures Render(cs)[|Render(cs)| - 1] != '/'
  {
    var n := cs[|cs| - 1];
    var r := Render(cs);
    var q := Render(cs[..|cs| - 1]);
    assert r == q + n || r == q + "/" + n;
    assert r[|r| - 1] == n[|n| - 1];
  }

  /** Render of one more component: one '/' between parent and name. */
  lemma RenderSnoc(cs: seq<string>, n: string)
    requires ValidComps(cs) && ValidName(n)
    ensures Render(cs + [n]) == (if cs == [] then "/" + n else Render(cs) + "/" + n)
  {
    assert (cs + [n])[..|cs|] == cs;
    if cs != [] { RenderLast(cs); }
  }

  /** The last '/' of a rendered path sits just before its last component. */
  lemma RFindRenderSnoc(cs: seq<string>, n: string)
    requires ValidComps(cs) && ValidName(n)
    ensures var i := RFind(Render(cs + [n]), '/');
            i == (if cs == [] then 0 else |Render(cs)|) && Render(cs + [n])[i + 1..] == n
  {
    RenderSnoc(cs, n);
    var t := if cs == [] then "" else Render(cs);
    assert Render(cs + [n]) == t + "/" + n;
    RFindAppend(t, '/', n);
  }

  /** A prefix of valid components is valid. */
  lemma ValidPrefix(cs: seq<string>, k: nat)
    requires ValidComps(cs) && k <= |cs|
    ensures ValidComps(cs[..k])
  {
    assert forall i :: 0 <= i < k ==> cs[..k][i] == cs[i];
  }

  /** Render then Components gives the components back. */
  lemma {:induction false} ComponentsRender(cs: seq<string>)
    requires ValidComps(cs)
    ensures Components(Render(cs)) == cs
    ensures AbsNorm(Render(cs))
  {
    if cs != [] {
      var pre, n := cs[..|cs| - 1], cs[|cs| - 1];
      assert cs == pre + [n];
      ValidPrefix(cs, |pre|);
      var p := Render(cs);
      if pre == [] {
        RenderSnoc(pre, n);
        assert p[1..] == n;
        SplitNone(n, '/');
        assert Components(p) == [n];
      } else {
        ComponentsRender(pre);
        ComponentsSnoc(pre, n);
      }
    }
  }

  /** One more component below a non-root path adds one more '/'-separated piece. */
  lemma ComponentsSnoc(pre: seq<string>, n: string)
    requires ValidComps(pre) && pre != [] && ValidName(n)
    requires Components(Render(pre)) == pre
    ensures Components(Render(pre + [n])) == pre + [n]
  {
    var r := Render(pre);
    var p := Render(pre + [n]);
    assert p == r + "/" + n by { RenderSnoc(pre, n); }
    assert r != "/" by { RenderLast(pre); }
    assert p[1..] == r[1..] + "/" + n;
    SplitAppend(r[1..], '/', n);
  }

  /** Components then Render gives an absolute normalised path back. */
  lemma RenderComponents(p: string)
    requires AbsNorm(p)
    ensures Render(Components(p)) == p
  {
    if p != "/" {
      RenderSplit(p[1..]);
      assert p == "/" + p[1..];
    }
  }

  lemma {:induction false} RenderSplit(s: string)
    requires ValidComps(Split(s, '/'))
    ensures Render(Split(s, '/')) == "/" + s
    decreases |s|
  {
    var i := RFind(s, '/');
    if i < 0 {
      RenderSplitOne(s);
    } else {
      var parts, pre := Split(s, '/'), Split(s[..i], '/');
      assert parts == pre + [s[i + 1..]];
      ValidPrefix(parts, |pre|);
      assert parts[..|pre|] == pre;
      RenderSplit(s[..i]);
      RenderSplitStep(s, i);
    }
  }

  lemma RenderSplitOne(s: string)
    requires ValidComps(Split(s, '/')) && RFind(s, '/') < 0
    ensures Render(Split(s, '/')) == "/" + s
  {
    var parts := Split(s, '/');
    assert parts == [s];
    assert ValidName(parts[0]);
    RenderSnoc([], s);
    assert [] + [s] == parts;
  }

  lemma RenderSplitStep(s: string, i: int)
    requires ValidComps(Split(s, '/')) && i == RFind(s, '/') && i >= 0
    requires Render(Split(s[..i], '/')) == "/" + s[..i]
    ensures Render(Split(s, '/')) == "/" + s
  {
    var pre, t, n := Split(s[..i], '/'), s[..i], s[i + 1..];
    assert Split(s, '/') == pre + [n];
    assert s == t + "/" + n by {
      assert s == s[..i] + [s[i]] + s[i + 1..];
    }
    assert ValidComps(pre) && ValidName(n) by {
      ValidPrefix(pre + [n], |pre|);
      assert (pre + [n])[..|pre|] == pre;
      assert ValidName((pre + [n])[|pre|]);
    }
    RenderSnocText(pre, t, n);
  }

  lemma RenderSnocText(pre: seq<string>, t: string, n: string)
    requires ValidComps(pre) && ValidName(n) && pre != [] && Render(pre) == "/" + t
    ensures Render(pre + [n]) == "/" + (t + "/" + n)
  {
    RenderSnoc(pre, n);
  }

  /** Distinct valid component lists give distinct paths. */
  lemma RenderInjective(a: seq<string>, b: seq<string>)
    requires ValidComps(a) && ValidComps(b)
    ensures Render(a) == Render(b) <==> a == b
  {
    ComponentsRender(a);
    ComponentsRender(b);
  }

  /** `basename` of a rendered path is its last component ("" for the root). */
  lemma BasenameRender(cs: seq<string>)
    requires ValidComps(cs)
    ensures Basename(Render(cs)) == if cs == [] then "" else cs[|cs| - 1]
  {
    if cs != [] {
      BasenameLast(cs);
    }
  }

  /** `basename` of the path of a non-empty component list is its last component. */
  lemma BasenameLast(cs: seq<string>)
    requires ValidComps(cs) && cs != []
    ensures Basename(Render(cs)) == cs[|cs| - 1]
  {
    var pre, n := cs[..|cs| - 1], cs[|cs| - 1];
    ValidPrefix(cs, |pre|);
    assert Render(cs) == Join(Render(pre), n);
    if pre == [] {
      assert Render(cs) == "" + "/" + n;
      BasenameAppend("", n);
    } else {
      RenderLast(pre);
      assert Render(cs) == Render(pre) + "/" + n;
      BasenameAppend(Render(pre), n);
    }
  }

  /** `basename` of `t + "/" + n` is `n` when `n` has no '/'. */
  lemma BasenameAppend(t: string, n: string)
    requires '/' !in n
    ensures Basename(t + "/" + n) == n
  {
    var p := t + "/" + n;
    RFindAppend(t, '/', n);
    assert p[|t| + 1..] == n;
  }

  /** Stripping the '/' added after a path that does not end in '/' gives the path back. */
  lemma RStripSlash(r: string)
    requires r != "" && r[|r| - 1] != '/'
    ensures RStrip(r + "/", {'/'}) == r
  {
    var s := RStrip(r + "/", {'/'});
    assert (r + "/")[|r| - 1] == r[|r| - 1];
    assert |s| >= |r|;
  }

  /** `dirname` of a path with one more component is the parent's path. */
  lemma DirnameSnoc(pre: seq<string>, n: string)
    requires ValidComps(pre) && ValidName(n)
    ensures Dirname(Render(pre + [n])) == Render(pre)
  {
    RenderSnoc(pre, n);
    if pre != [] {
      RenderLast(pre);
      DirnameAppend(Render(pre), n);
    } else {
      DirnameAppend("", n);
    }
  }

  /** `dirname` of `t + "/" + n` is `t`, or "/" when `t` is empty. */
  lemma DirnameAppend(t: string, n: string)
    requires '/' !in n && (t == "" || t[|t| - 1] != '/')
    ensures Dirname(t + "/" + n) == if t == "" then "/" else t
  {
    var p := t + "/" + n;
    RFindAppend(t, '/', n);
    var head := p[..|t| + 1];
    assert head == t + "/";
    if t != "" {
      assert head[|t| - 1] != '/';
      RStripSlash(t);
    }
  }


  /** `dirname` of a rendered path drops the last component and is a fixed point at the root. */
  lemma DirnameRender(cs: seq<string>)
    requires ValidComps(cs)
    ensures Dirname(Render(cs)) == Render(Up(cs, 1))
    ensures Dirname(Render(cs)) == Render(cs) <==> cs == []
  {
    if cs != [] {
      var pre, n := cs[..|cs| - 1], cs[|cs| - 1];
      assert cs == pre + [n];
      ValidPrefix(cs, |pre|);
      DirnameSnoc(pre, n);
      RenderSnoc(pre, n);
      assert |Render(pre)| < |Render(cs)|;
    }
  }

  /** `DirnameN` on a rendered path walks up `k` levels and stops at the root. */
  lemma {:induction false} DirnameNRender(cs: seq<string>, k: int)
    requires ValidComps(cs)
    ensures DirnameN(Render(cs), k) == Render(Up(cs, k))
  {
    if k > 0 {
      DirnameNRenderUp(cs, k);
    }
  }

  lemma {:induction false} DirnameNRenderUp(cs: seq<string>, k: nat)
    requires ValidComps(cs) && k >= 1
    ensures DirnameN(Render(cs), k) == Render(Up(cs, k))
    decreases k
  {
    if k > 1 {
      var up := Up(cs, 1);
      ValidPrefix(cs, |up|);
      DirnameNRenderUp(up, k - 1);
    }
    DirnameNRenderStep(cs, k);
  }

  /** One induction step of `DirnameNRender`: the first `dirname` drops the last component. */
  lemma DirnameNRenderStep(cs: seq<string>, k: int)
    requires ValidComps(cs) && k > 0
    requires k > 1 ==> DirnameN(Render(Up(cs, 1)), k - 1) == Render(Up(Up(cs, 1), k - 1))
    ensures DirnameN(Render(cs), k) == Render(Up(cs, k))
  {
    DirnameNStep(Render(cs), k);
    DirnameRender(cs);
    UpTwice(cs, k);
  }

  /** One `dirname` and then `k - 1` more is `k` of them. */
  lemma DirnameNStep(p: string, k: int)
    requires k >= 1
    ensures DirnameN(p, k) == DirnameN(Dirname(p), k - 1)
  {
  }

  /** Going up one level and then `k - 1` more is going up `k` levels. */
  lemma UpTwice(cs: seq<string>, k: int)
    requires k > 0
    ensures Up(Up(cs, 1), k - 1) == Up(cs, k)
  {
  }

  /** The components of a path joined with '/' (the path relative to the root). */
  function RelPath(cs: seq<string>): string {
    JoinWith(cs, "/")
  }

  /** A path below a directory is that directory, a '/' (unless it is the root), and the relative path. */
  lemma {:induction false} RenderAppend(cs: seq<string>, rel: seq<string>)
    requires ValidComps(cs) && ValidComps(rel) && rel != []
    ensures Render(cs + rel) == (if cs == [] then "/" else Render(cs) + "/") + RelPath(rel)
    decreases |rel|
  {
    var pre, n := rel[..|rel| - 1], rel[|rel| - 1];
    assert rel == pre + [n];
    assert ValidComps(pre) by { ValidPrefix(rel, |pre|); }
    if pre == [] {
      RenderAppendOne(cs, n);
    } else {
      RenderAppend(cs, pre);
      ValidAppend(cs, pre);
      RenderAppendMore(cs, pre, n);
    }
  }

  /** Valid component lists concatenate to a valid one. */
  lemma ValidAppend(a: seq<string>, b: seq<string>)
    requires ValidComps(a) && ValidComps(b)
    ensures ValidComps(a + b)
  {
    assert forall i :: 0 <= i < |a + b| ==> (a + b)[i] == (if i < |a| then a[i] else b[i - |a|]);
  }

  /** `RenderAppend` for one relative component. */
  lemma RenderAppendOne(cs: seq<string>, n: string)
    requires ValidComps(cs) && ValidName(n)
    ensures Render(cs + [n]) == (if cs == [] then "/" else Render(cs) + "/") + RelPath([n])
  {
    RenderSnoc(cs, n);
    assert RelPath([n]) == n;
  }

  /** The induction step of `RenderAppend`: the last relative component goes after one more '/'. */
  lemma RenderAppendMore(cs: seq<string>, pre: seq<string>, n: string)
    requires ValidComps(cs + pre) && ValidName(n) && pre != []
    requires Render(cs + pre) == (if cs == [] then "/" else Render(cs) + "/") + RelPath(pre)
    ensures Render(cs + (pre + [n])) == (if cs == [] then "/" else Render(cs) + "/") + RelPath(pre + [n])
  {
    var base, r := if cs == [] then "/" else Render(cs) + "/", RelPath(pre);
    calc {
      Render(cs + (pre + [n]));
      { assert cs + (pre + [n]) == (cs + pre) + [n]; RenderSnoc(cs + pre, n); }
      Render(cs + pre) + "/" + n;
      (base + r) + "/" + n;
      base + (r + "/" + n);
      { JoinSnoc(pre, n, "/"); }
      base + RelPath(pre + [n]);
    }
  }
}

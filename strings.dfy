/**
 * Python `str` operations that the path and file helpers rely on, over
 * `string` (a sequence of `char`).
 */
module Strings {

  /** `s.rfind(c)`: the index of the last occurrence of `c`, or -1. */
  function RFind(s: string, c: char): (r: int)
    ensures -1 <= r < |s|
    ensures r >= 0 ==> s[r] == c
    ensures forall j :: r < j < |s| ==> s[j] != c
  {
    if s == [] then -1
    else if s[|s| - 1] == c then |s| - 1
    else RFind(s[..|s| - 1], c)
  }

  /** `s.find(c)`: the index of the first occurrence of `c`, or -1. */
  function Find(s: string, c: char): (r: int)
    ensures -1 <= r < |s|
    ensures r >= 0 ==> s[r] == c
    ensures forall j :: 0 <= j < |s| && (r < 0 || j < r) ==> s[j] != c
  {
    if s == [] then -1
    else if s[0] == c then 0
    else var k := Find(s[1..], c); if k < 0 then -1 else k + 1
  }

  /** `s.startswith(prefix)`. */
  predicate StartsWith(s: string, prefix: string) {
    |prefix| <= |s| && s[..|prefix|] == prefix
  }

  /** `s.endswith(suffix)`; every string ends with "". */
  predicate EndsWith(s: string, suffix: string) {
    |suffix| <= |s| && s[|s| - |suffix|..] == suffix
  }

  /** `s[n:]` for `n >= 0`: Python slicing past the end gives "". */
  function Drop(s: string, n: nat): (r: string)
    ensures n <= |s| ==> s == s[..n] + r
    ensures n >= |s| ==> r == ""
  {
    if n <= |s| then s[n..] else ""
  }

  /** `s.replace(from, to)` for single characters. */
  function ReplaceChar(s: string, from: char, to: char): (r: string)
    ensures |r| == |s|
    ensures forall i :: 0 <= i < |s| ==> r[i] == (if s[i] == from then to else s[i])
    ensures from != to ==> from !in r
  {
    if s == [] then ""
    else (if s[0] == from then [to] else [s[0]]) + ReplaceChar(s[1..], from, to)
  }

  /** `s.rstrip(chars)`: drop every trailing character that is in `chars`. */
  function RStrip(s: string, chars: set<char>): (r: string)
    ensures |r| <= |s| && r == s[..|r|]
    ensures r == [] || r[|r| - 1] !in chars
    ensures forall j :: |r| <= j < |s| ==> s[j] in chars
  {
    if s == [] || s[|s| - 1] !in chars then s
    else RStrip(s[..|s| - 1], chars)
  }

  /** `sep.join(parts)`. */
  function JoinWith(parts: seq<string>, sep: string): string {
    if |parts| == 0 then ""
    else if |parts| == 1 then parts[0]
    else parts[0] + sep + JoinWith(parts[1..], sep)
  }

  /** `s.split(c)` for a single-character separator: never empty. */
  function Split(s: string, c: char): (parts: seq<string>)
    ensures |parts| >= 1
    decreases |s|
  {
    var i := RFind(s, c);
    if i < 0 then [s] else Split(s[..i], c) + [s[i + 1..]]
  }

  /** `k` is the last index of `c` in `p` exactly when `p[k] == c` and no later `c` follows. */
  lemma RFindAt(p: string, c: char, k: int)
    requires 0 <= k < |p| && p[k] == c
    requires forall j :: k < j < |p| ==> p[j] != c
    ensures RFind(p, c) == k
  {
    RFindAtLeast(p, c, k);
  }

  lemma RFindAtLeast(p: string, c: char, k: int)
    requires 0 <= k < |p| && p[k] == c
    ensures RFind(p, c) >= k
  {
  }

  lemma NotInAt(n: string, c: char)
    requires c !in n
    ensures forall k :: 0 <= k < |n| ==> n[k] != c
  {
  }

  lemma RFindAfter(t: string, c: char, n: string)
    requires forall k :: 0 <= k < |n| ==> n[k] != c
    ensures RFind(t + [c] + n, c) == |t|
  {
    var p := t + [c] + n;
    assert forall j :: |t| < j < |p| ==> p[j] != c;
    RFindAt(p, c, |t|);
  }

  /** The last `c` of `t + [c] + n` is the one added, when `n` has none. */
  lemma RFindAppend(t: string, c: char, n: string)
    requires c !in n
    ensures RFind(t + [c] + n, c) == |t|
  {
    NotInAt(n, c);
    RFindAfter(t, c, n);
  }

  /** `k` is the first index of `c` in `p` exactly when `p[k] == c` and no earlier `c` precedes it. */
  lemma FindAt(p: string, c: char, k: int)
    requires 0 <= k < |p| && p[k] == c
    requires forall j :: 0 <= j < k ==> p[j] != c
    ensures Find(p, c) == k
  {
    FindAtMost(p, c, k);
  }

  lemma FindAtMost(p: string, c: char, k: int)
    requires 0 <= k < |p| && p[k] == c
    ensures 0 <= Find(p, c) <= k
  {
  }

  /** The first `c` of `t + [c] + n` is the one added, when `t` has none. */
  lemma FindAppend(t: string, c: char, n: string)
    requires c !in t
    ensures Find(t + [c] + n, c) == |t|
  {
    var p := t + [c] + n;
    assert forall j :: 0 <= j < |t| ==> p[j] == t[j];
    FindAt(p, c, |t|);
  }

  /** A string without `c` has no first `c`. */
  lemma FindNone(s: string, c: char)
    requires c !in s
    ensures Find(s, c) == -1
  {
  }

  /** A string without `c` does not split. */
  lemma SplitNone(s: string, c: char)
    requires c !in s
    ensures Split(s, c) == [s]
  {
    assert RFind(s, c) < 0;
  }

  /** Splitting `t + [c] + n` adds `n` as the last piece, when `n` has no `c`. */
  lemma SplitAppend(t: string, c: char, n: string)
    requires c !in n
    ensures Split(t + [c] + n, c) == Split(t, c) + [n]
  {
    var p := t + [c] + n;
    RFindAppend(t, c, n);
    assert p[..|t|] == t;
    assert p[|t| + 1..] == n;
  }

  /** Splitting at `c` and joining with `c` gives the string back. */
  lemma {:induction false} JoinSplit(s: string, c: char)
    ensures JoinWith(Split(s, c), [c]) == s
    decreases |s|
  {
    var i := RFind(s, c);
    if i >= 0 {
      JoinSplit(s[..i], c);
      JoinSnoc(Split(s[..i], c), s[i + 1..], [c]);
      assert s == s[..i] + [c] + s[i + 1..];
    }
  }

  /** Joining a sequence extended at the end. */
  lemma {:induction false} JoinSnoc(parts: seq<string>, last: string, sep: string)
    requires |parts| >= 1
    ensures JoinWith(parts + [last], sep) == JoinWith(parts, sep) + sep + last
    decreases |parts|
  {
    if |parts| > 1 {
      assert (parts + [last])[1..] == parts[1..] + [last];
      JoinSnoc(parts[1..], last, sep);
    }
  }

  /** Joining a sequence extended at the front. */
  lemma JoinCons(first: string, rest: seq<string>, sep: string)
    requires |rest| >= 1
    ensures JoinWith([first] + rest, sep) == first + sep + JoinWith(rest, sep)
  {
    assert ([first] + rest)[1..] == rest;
  }

  /** Concatenating (joining with no separator) a sequence extended at the front. */
  lemma ConcatCons(first: string, rest: seq<string>)
    ensures JoinWith([first] + rest, "") == first + JoinWith(rest, "")
  {
    if rest == [] {
      assert [first] + rest == [first];
    } else {
      JoinCons(first, rest, "");
    }
  }

  /** A sequence is its two halves around any index. */
  lemma Halves<T>(s: seq<T>, k: int)
    requires 0 <= k <= |s|
    ensures s[..k] + s[k..] == s
  {
  }

  /** A string is the part before index `i`, the character at `i` and the part after. */
  lemma SplitAt(s: string, i: int)
    requires 0 <= i < |s|
    ensures s == s[..i] + [s[i]] + s[i + 1..]
  {
  }

  /** No element occurs twice. */
  predicate Distinct<T(==)>(s: seq<T>) {
    forall i, j :: 0 <= i < j < |s| ==> s[i] != s[j]
  }

  /** Two sequences without repeats and without common elements concatenate without repeats. */
  lemma DistinctAppend<T>(a: seq<T>, b: seq<T>)
    requires Distinct(a) && Distinct(b)
    requires forall x :: x in a ==> x !in b
    ensures Distinct(a + b)
  {
    forall i, j | 0 <= i < j < |a + b|
      ensures (a + b)[i] != (a + b)[j]
    {
      if i < |a| && j >= |a| {
        assert (a + b)[i] in a && (a + b)[j] in b;
      }
    }
  }
  /** `[f(x) for x in s]`. */
  function MapSeq<T, U>(f: T -> U, s: seq<T>): (r: seq<U>)
    ensures |r| == |s|
  {
    seq(|s|, j requires 0 <= j < |s| => f(s[j]))
  }

  lemma MapAppend<T, U>(f: T -> U, a: seq<T>, b: seq<T>)
    ensures MapSeq(f, a + b) == MapSeq(f, a) + MapSeq(f, b)
  {
  }

  /** Removing the element at `j` removes one occurrence of it. */
  lemma RemoveAt<T>(t: seq<T>, j: int)
    requires 0 <= j < |t|
    ensures multiset(t[..j] + t[j + 1..]) == multiset(t) - multiset{t[j]}
  {
    assert t == t[..j] + [t[j]] + t[j + 1..];
  }

  /** Two arrangements of the same elements stay so once their first element, and one occurrence of it, is removed. */
  lemma MultisetTail<T>(s: seq<T>, t: seq<T>, j: int)
    requires multiset(s) == multiset(t) && s != [] && 0 <= j < |t| && t[j] == s[0]
    ensures multiset(s[1..]) == multiset(t[..j] + t[j + 1..])
  {
    RemoveAt(t, j);
    assert multiset(s) == multiset{s[0]} + multiset(s[1..]) by {
      assert s == [s[0]] + s[1..];
    }
  }

  lemma MapCons<T, U>(f: T -> U, s: seq<T>)
    requires s != []
    ensures multiset(MapSeq(f, s)) == multiset{f(s[0])} + multiset(MapSeq(f, s[1..]))
  {
    assert s == [s[0]] + s[1..];
    MapAppend(f, [s[0]], s[1..]);
  }

  lemma MapRemove<T, U>(f: T -> U, t: seq<T>, j: int)
    requires 0 <= j < |t|
    ensures multiset(MapSeq(f, t)) == multiset{f(t[j])} + multiset(MapSeq(f, t[..j] + t[j + 1..]))
  {
    var before, after := t[..j], t[j + 1..];
    assert t == before + ([t[j]] + after);
    MapAppend(f, before, [t[j]] + after);
    MapAppend(f, [t[j]], after);
    MapAppend(f, before, after);
  }

  /** Mapping two arrangements of the same elements gives two arrangements of the same images. */
  lemma {:induction false} MapMultiset<T, U>(f: T -> U, s: seq<T>, t: seq<T>)
    requires multiset(s) == multiset(t)
    ensures multiset(MapSeq(f, s)) == multiset(MapSeq(f, t))
    decreases |s|
  {
    if s == [] {
      assert |multiset(t)| == 0;
    } else {
      assert s[0] in multiset(t);
      var j :| 0 <= j < |t| && t[j] == s[0];
      MultisetTail(s, t, j);
      MapMultiset(f, s[1..], t[..j] + t[j + 1..]);
      MapCons(f, s);
      MapRemove(f, t, j);
    }
  }
}

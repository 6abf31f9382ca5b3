/**
  The parts of Go's `strings`, `path` and `path/filepath` packages the hooks rely on, for
  slash-separated paths.
*/
module GoStrings {

  /** `unicode.ToLower` restricted to ASCII letters. */
  function LowerChar(c: char): char {
    if 'A' <= c <= 'Z' then (c as int + 32) as char else c
  }

  /** `strings.ToLower`: lower-cases every ASCII letter and keeps everything else. */
  function ToLower(s: string): (r: string)
    ensures |r| == |s|
    ensures forall i :: 0 <= i < |s| ==> r[i] == LowerChar(s[i])
  {
    if s == [] then [] else [LowerChar(s[0])] + ToLower(s[1..])
  }

  /** `strings.HasSuffix`. */
  predicate HasSuffix(s: string, suffix: string) {
    |suffix| <= |s| && s[|s| - |suffix|..] == suffix
  }

  /** `strings.TrimSuffix`: removes `suffix` once if `s` ends with it (case-sensitive). */
  function TrimSuffix(s: string, suffix: string): (r: string)
    ensures HasSuffix(s, suffix) ==> r + suffix == s
    ensures !HasSuffix(s, suffix) ==> r == s
  {
    if HasSuffix(s, suffix) then s[..|s| - |suffix|] else s
  }

  /** `strings.Count(s, string(c))`: the number of occurrences of `c`. */
  function Count(s: string, c: char): (n: nat)
    ensures n == multiset(s)[c]
    ensures n <= |s|
    ensures n > 0 <==> c in s
  {
    if s == [] then 0
    else
      assert s == s[..|s| - 1] + [s[|s| - 1]];
      (if s[|s| - 1] == c then 1 else 0) + Count(s[..|s| - 1], c)
  }

  /** `strings.LastIndex(s, string(c))`: the last position of `c`, or -1. */
  function LastIndex(s: string, c: char): (i: int)
    ensures -1 <= i < |s|
    ensures i >= 0 ==> s[i] == c
    ensures forall k :: i < k < |s| ==> s[k] != c
  {
    if s == [] then -1
    else if s[|s| - 1] == c then |s| - 1
    else LastIndex(s[..|s| - 1], c)
  }

  /** Go's extension scan from position `i` down to the last slash. */
  function ExtFrom(p: string, i: int): (r: string)
    requires -1 <= i < |p|
    requires forall k :: i < k < |p| ==> p[k] != '.' && p[k] != '/'
    ensures r == "" || (r[0] == '.' && HasSuffix(p, r) && |r| >= |p| - i)
    ensures forall k :: 0 < k < |r| ==> r[k] != '.' && r[k] != '/'
    ensures r == "" ==> forall k :: LastIndex(p[..i + 1], '/') < k <= i ==> p[k] != '.'
    decreases i + 1
  {
    if i < 0 || p[i] == '/' then ""
    else if p[i] == '.' then p[i..]
    else
      assert p[..i + 1][..i] == p[..i];
      ExtFrom(p, i - 1)
  }

  /**
    `filepath.Ext` (and `path.Ext`): the suffix from the last dot of the last path element,
    or "" when that element has no dot.
  */
  function Ext(p: string): (r: string)
    ensures r == "" || (r[0] == '.' && HasSuffix(p, r))
    ensures forall k :: 0 < k < |r| ==> r[k] != '.' && r[k] != '/'
    ensures r == "" ==> forall k :: LastIndex(p, '/') < k < |p| ==> p[k] != '.'
  {
    assert p[..|p|] == p;
    ExtFrom(p, |p| - 1)
  }

  /** Removes every trailing slash. */
  function TrimTrailingSlashes(s: string): (r: string)
    ensures |r| <= |s| && r == s[..|r|]
    ensures r == "" || r[|r| - 1] != '/'
    ensures forall k :: |r| <= k < |s| ==> s[k] == '/'
  {
    if s != [] && s[|s| - 1] == '/' then TrimTrailingSlashes(s[..|s| - 1]) else s
  }

  /** `path.Base`: the last element after trailing slashes are removed; "." for "" and "/" for all slashes. */
  function Base(p: string): (r: string)
    ensures r != ""
    ensures r == "/" || '/' !in r
    ensures p == "" ==> r == "."
    ensures p != "" && TrimTrailingSlashes(p) == "" ==> r == "/"
    // Otherwise the last element: a slash-free suffix of the trimmed path, preceded by a slash or by nothing.
    ensures var t := TrimTrailingSlashes(p);
      t != "" ==> '/' !in r && HasSuffix(t, r) && (|r| == |t| || t[|t| - |r| - 1] == '/')
  {
    if p == "" then "."
    else
      var t := TrimTrailingSlashes(p);
      if t == "" then "/" else t[LastIndex(t, '/') + 1..]
  }

  /** `path.Split`: splits after the last slash, so that `dir + file == p`. */
  function Split(p: string): (r: (string, string))
    ensures r.0 + r.1 == p
    ensures '/' !in r.1
    ensures r.0 == "" || r.0[|r.0| - 1] == '/'
  {
    var i := LastIndex(p, '/');
    (p[..i + 1], p[i + 1..])
  }

  /**
    `filepath.Dir`: everything before the last element, without trailing slashes; "." when
    there is no slash and "/" at the root.
  */
  function Dir(p: string): (r: string)
    ensures r != ""
    ensures '/' !in p ==> r == "."
    // Otherwise the directory part of `Split` without its trailing slashes, or "/" when that is all slashes.
    ensures '/' in p ==>
      var t := TrimTrailingSlashes(Split(p).0);
      r == (if t == "" then "/" else t)
  {
    var i := LastIndex(p, '/');
    if i < 0 then "."
    else
      var t := TrimTrailingSlashes(p[..i + 1]);
      if t == "" then "/" else t
  }

  /** Appending text without slashes does not change the directory of a path. */
  lemma DirOfAppend(p: string, s: string)
    requires '/' !in s
    ensures Dir(p + s) == Dir(p)
  {
    var q := p + s;
    assert LastIndex(q, '/') == LastIndex(p, '/') by {
      LastIndexOfAppend(p, s, '/');
    }
    var i := LastIndex(p, '/');
    if i >= 0 {
      assert q[..i + 1] == p[..i + 1];
    }
  }

  lemma {:induction false} LastIndexOfAppend(p: string, s: string, c: char)
    requires c !in s
    ensures LastIndex(p + s, c) == LastIndex(p, c)
    decreases |s|
  {
    if s != [] {
      assert (p + s)[..|p + s| - 1] == p + s[..|s| - 1];
      LastIndexOfAppend(p, s[..|s| - 1], c);
    } else {
      assert p + s == p;
    }
  }
}

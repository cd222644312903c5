/** The functions of Go's strings and path/filepath packages that the core
  * calls, over strings of Unicode scalar values. */
module GoStrings {

  /** unicode.IsSpace: the White_Space characters, as Go defines them. */
  predicate IsSpace(c: char) {
    var n := c as int;
    (0x09 <= n <= 0x0D) || n == 0x20 || n == 0x85 || n == 0xA0 || n == 0x1680
    || (0x2000 <= n <= 0x200A) || n == 0x2028 || n == 0x2029 || n == 0x202F
    || n == 0x205F || n == 0x3000
  }

  function TrimLeftSpace(s: string): (t: string)
    ensures |t| <= |s| && t == s[|s| - |t|..]
    ensures t == [] || !IsSpace(t[0])
  {
    if |s| > 0 && IsSpace(s[0]) then TrimLeftSpace(s[1..]) else s
  }

  function TrimRightSpace(s: string): (t: string)
    ensures |t| <= |s| && t == s[..|t|]
    ensures t == [] || !IsSpace(t[|t| - 1])
  {
    if |s| > 0 && IsSpace(s[|s| - 1]) then TrimRightSpace(s[..|s| - 1]) else s
  }

  /** strings.TrimSpace: the result neither starts nor ends with white space. */
  function TrimSpace(s: string): (t: string)
    ensures |t| <= |s|
    ensures t != [] ==> !IsSpace(t[0]) && !IsSpace(t[|t| - 1])
  {
    var l := TrimLeftSpace(s);
    var t := TrimRightSpace(l);
    assert t != [] ==> t[0] == l[0];
    t
  }

  /** Only white space is cut from the front. */
  lemma {:induction false} TrimLeftSpaceCuts(s: string)
    ensures forall i :: 0 <= i < |s| - |TrimLeftSpace(s)| ==> IsSpace(s[i])
  {
    if |s| > 0 && IsSpace(s[0]) {
      TrimLeftSpaceCuts(s[1..]);
      assert forall i :: 1 <= i < |s| ==> s[i] == s[1..][i - 1];
    }
  }

  /** Only white space is cut from the back. */
  lemma {:induction false} TrimRightSpaceCuts(s: string)
    ensures forall i :: |TrimRightSpace(s)| <= i < |s| ==> IsSpace(s[i])
  {
    if |s| > 0 && IsSpace(s[|s| - 1]) {
      TrimRightSpaceCuts(s[..|s| - 1]);
    }
  }

  /** The trimmed string is empty exactly when the input is all white space. */
  lemma TrimSpaceEmpty(s: string)
    ensures TrimSpace(s) == [] <==> forall i :: 0 <= i < |s| ==> IsSpace(s[i])
  {
    var l := TrimLeftSpace(s);
    TrimLeftSpaceCuts(s);
    TrimRightSpaceCuts(l);
    if TrimSpace(s) != [] {
      assert !IsSpace(l[0]);
      assert l[0] == s[|s| - |l|];
    }
  }

  predicate HasPrefix(s: string, prefix: string) {
    |prefix| <= |s| && s[..|prefix|] == prefix
  }

  predicate HasSuffix(s: string, suffix: string) {
    |suffix| <= |s| && s[|s| - |suffix|..] == suffix
  }

  /** strings.Contains: sub occurs somewhere in s (the empty string occurs everywhere). */
  predicate Contains(s: string, sub: string) {
    HasPrefix(s, sub) || (|s| > 0 && Contains(s[1..], sub))
  }

  /** strings.IndexByte: the position of the first c, or -1. */
  function Index(s: string, c: char): (i: int)
    ensures -1 <= i < |s|
    ensures i == -1 <==> c !in s
    ensures i >= 0 ==> s[i] == c && c !in s[..i]
  {
    if s == [] then -1
    else if s[0] == c then 0
    else
      var j := Index(s[1..], c);
      if j < 0 then -1
      else
        assert s[..j + 1] == [s[0]] + s[1..][..j];
        j + 1
  }

  /** The loop of filepath.Ext over path[..n]: scanning back from n - 1 and
    * stopping at the first '/', the position of the last '.', or -1. */
  function DotIndex(path: string, n: nat): (k: int)
    requires n <= |path|
    ensures -1 <= k < n
    ensures k >= 0 ==> path[k] == '.' && forall j :: k < j < n ==> path[j] != '.' && path[j] != '/'
  {
    if n == 0 || path[n - 1] == '/' then -1
    else if path[n - 1] == '.' then n - 1
    else DotIndex(path, n - 1)
  }

  /** filepath.Ext: the suffix of the final path element that starts at its
    * last '.', or the empty string when that element has no '.'. */
  function Ext(path: string): string {
    var k := DotIndex(path, |path|);
    if k < 0 then [] else path[k..]
  }

  /** The extension is a suffix that starts with its only '.' and holds no '/';
    * it is empty exactly when the scan back to the last '/' meets no '.'. */
  lemma ExtShape(path: string)
    ensures |Ext(path)| <= |path| && Ext(path) == path[|path| - |Ext(path)|..]
    ensures Ext(path) != [] ==>
      Ext(path)[0] == '.' && forall j :: 0 < j < |Ext(path)| ==> Ext(path)[j] != '.' && Ext(path)[j] != '/'
    ensures Ext(path) == [] <==> forall j :: 0 <= j < |path| && '/' !in path[j..] ==> path[j] != '.'
  {
    var k := DotIndex(path, |path|);
    if k < 0 { DotIndexNone(path, |path|); }
  }

  /** The scan finds nothing exactly when no '.' follows the last '/' before n. */
  lemma {:induction false} DotIndexNone(path: string, n: nat)
    requires n <= |path|
    ensures DotIndex(path, n) == -1 <==> forall j :: 0 <= j < n && '/' !in path[j..n] ==> path[j] != '.'
  {
    if n > 0 {
      DotIndexNone(path, n - 1);
      if path[n - 1] == '/' {
        assert forall j :: 0 <= j < n ==> path[n - 1] in path[j..n];
      } else {
        assert forall j :: 0 <= j < n - 1 ==> path[j..n] == path[j..n - 1] + [path[n - 1]];
      }
    }
  }

  /** Scanning inside a prefix never looks at what follows it. */
  lemma {:induction false} DotIndexPrefix(a: string, p: string, m: nat)
    requires m <= |a|
    ensures DotIndex(a + p, m) == DotIndex(a, m)
  {
    if m > 0 {
      assert (a + p)[m - 1] == a[m - 1];
      DotIndexPrefix(a, p, m - 1);
    }
  }

  /** Scanning a + p from inside p finds what scanning p finds, shifted, or
    * continues into a once p holds neither '.' nor '/'. */
  lemma {:induction false} DotIndexShift(a: string, p: string, n: nat)
    requires n <= |p| && DotIndex(a, |a|) == -1
    ensures DotIndex(a + p, |a| + n) == if DotIndex(p, n) < 0 then -1 else |a| + DotIndex(p, n)
  {
    if n == 0 {
      DotIndexPrefix(a, p, |a|);
    } else {
      assert (a + p)[|a| + n - 1] == p[n - 1];
      DotIndexShift(a, p, n - 1);
    }
  }

  /** Text without a '.' adds nothing to the extension of what follows it. */
  lemma ExtOfPrefixed(a: string, p: string)
    requires '.' !in a
    ensures Ext(a + p) == Ext(p)
  {
    assert DotIndex(a, |a|) == -1;
    DotIndexShift(a, p, |p|);
    var k := DotIndex(p, |p|);
    assert k >= 0 ==> (a + p)[|a| + k..] == p[k..];
  }
}

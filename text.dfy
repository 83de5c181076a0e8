/**
 * String helpers shared by the three components: Python's notion of
 * whitespace (used by `str.strip` and by `\s` in the line patterns),
 * `strip`, ASCII case mapping, suffix tests and the code-point ordering
 * Python uses to compare strings.
 */
module Text {

  /** Python's `str.isspace`, which is also what `\s` matches in a `str` pattern. */
  predicate IsSpace(c: char) {
    || ('\t' <= c <= '\r')
    || ('\U{1C}' <= c <= ' ')
    || c == '\U{85}' || c == '\U{A0}' || c == '\U{1680}'
    || ('\U{2000}' <= c <= '\U{200A}')
    || c == '\U{2028}' || c == '\U{2029}' || c == '\U{202F}' || c == '\U{205F}'
    || c == '\U{3000}'
  }

  predicate AllSpace(s: string) {
    forall i :: 0 <= i < |s| ==> IsSpace(s[i])
  }

  /** Drops the leading whitespace. */
  function TrimStart(s: string): string {
    if s != [] && IsSpace(s[0]) then TrimStart(s[1..]) else s
  }

  /** Drops the trailing whitespace. */
  function TrimEnd(s: string): string {
    if s != [] && IsSpace(s[|s| - 1]) then TrimEnd(s[..|s| - 1]) else s
  }

  /** `TrimStart` keeps a suffix, drops only whitespace, and stops at a non-space. */
  lemma {:induction false} TrimStartSpec(s: string)
    ensures |TrimStart(s)| <= |s| && TrimStart(s) == s[|s| - |TrimStart(s)|..]
    ensures TrimStart(s) == [] || !IsSpace(TrimStart(s)[0])
    ensures AllSpace(s[..|s| - |TrimStart(s)|])
  {
    if s != [] && IsSpace(s[0]) {
      TrimStartSpec(s[1..]);
      var k := |s| - |TrimStart(s)|;
      assert s[1..][..k - 1] == s[1..k];
      forall i | 0 <= i < k ensures IsSpace(s[..k][i]) {
        if i > 0 { assert s[..k][i] == s[1..][..k - 1][i - 1]; }
      }
    }
  }

  /** `TrimEnd` keeps a prefix, drops only whitespace, and stops at a non-space. */
  lemma {:induction false} TrimEndSpec(s: string)
    ensures |TrimEnd(s)| <= |s| && TrimEnd(s) == s[..|TrimEnd(s)|]
    ensures TrimEnd(s) == [] || !IsSpace(TrimEnd(s)[|TrimEnd(s)| - 1])
    ensures AllSpace(s[|TrimEnd(s)|..])
  {
    if s != [] && IsSpace(s[|s| - 1]) {
      var p := s[..|s| - 1];
      TrimEndSpec(p);
      var k := |TrimEnd(s)|;
      forall i | 0 <= i < |s| - k ensures IsSpace(s[k..][i]) {
        if k + i < |s| - 1 { assert s[k..][i] == p[k..][i]; }
      }
    }
  }

  /** Python's `str.strip()` with no argument. */
  function Strip(s: string): string {
    TrimEnd(TrimStart(s))
  }

  /**
   * `strip` keeps a middle slice that neither starts nor ends with
   * whitespace, and drops only whitespace around it.
   */
  lemma StripSlice(s: string)
    ensures Strip(s) == [] || (!IsSpace(Strip(s)[0]) && !IsSpace(Strip(s)[|Strip(s)| - 1]))
    ensures exists i, j :: 0 <= i <= j <= |s| && Strip(s) == s[i..j] && AllSpace(s[..i]) && AllSpace(s[j..])
  {
    var t := TrimStart(s);
    var r := TrimEnd(t);
    TrimStartSpec(s);
    TrimEndSpec(t);
    var i := |s| - |t|;
    var j := i + |r|;
    SuffixPrefix(s, i, |r|);
    assert r == s[i..j] && s[j..] == t[|r|..];
    if r != [] {
      assert r[0] == t[0];
    }
  }

  /** A prefix of a suffix is a slice. */
  lemma SuffixPrefix(s: string, i: int, k: int)
    requires 0 <= i <= |s| && 0 <= k <= |s| - i
    ensures s[i..][..k] == s[i..i + k] && s[i..][k..] == s[i + k..]
  {
  }

  /** The stripped text is empty exactly when the whole text is whitespace. */
  lemma StripEmptyIffAllSpace(s: string)
    ensures Strip(s) == [] <==> AllSpace(s)
  {
    var r := Strip(s);
    StripSlice(s);
    var i, j :| 0 <= i <= j <= |s| && r == s[i..j] && AllSpace(s[..i]) && AllSpace(s[j..]);
    if r == [] {
      assert i == j;
      forall k | 0 <= k < |s| ensures IsSpace(s[k]) {
        if k < i { assert s[..i][k] == s[k]; } else { assert s[j..][k - j] == s[k]; }
      }
    } else {
      assert s[i] == r[0];
    }
  }

  /** Whitespace around a text does not change what `strip` returns. */
  lemma {:induction false} StripPadded(pre: string, x: string, post: string)
    requires AllSpace(pre) && AllSpace(post)
    ensures Strip(pre + x + post) == Strip(x)
  {
    TrimStartPadded(pre, x + post);
    assert pre + x + post == pre + (x + post);
    TrimEndPadded(TrimStart(x), post);
    TrimStartAppend(x, post);
  }

  lemma {:induction false} TrimStartPadded(pre: string, x: string)
    requires AllSpace(pre)
    ensures TrimStart(pre + x) == TrimStart(x)
  {
    if pre != [] {
      assert (pre + x)[0] == pre[0];
      assert (pre + x)[1..] == pre[1..] + x;
      assert AllSpace(pre[1..]);
      TrimStartPadded(pre[1..], x);
    } else {
      assert pre + x == x;
    }
  }

  lemma {:induction false} TrimEndPadded(x: string, post: string)
    requires AllSpace(post)
    ensures TrimEnd(x + post) == TrimEnd(x)
  {
    if post != [] {
      assert (x + post)[|x + post| - 1] == post[|post| - 1];
      assert (x + post)[..|x + post| - 1] == x + post[..|post| - 1];
      assert AllSpace(post[..|post| - 1]);
      TrimEndPadded(x, post[..|post| - 1]);
    } else {
      assert x + post == x;
    }
  }

  /** Trimming the front of `x + post` and then the back is trimming `x` alone, then its back. */
  lemma {:induction false} TrimStartAppend(x: string, post: string)
    requires AllSpace(post)
    ensures TrimEnd(TrimStart(x + post)) == TrimEnd(TrimStart(x) + post)
  {
    if x == [] {
      assert x + post == post;
      assert TrimStart(x) + post == post;
      AllSpaceTrimsStart(post);
      AllSpaceTrimsEnd(post);
    } else if IsSpace(x[0]) {
      assert (x + post)[0] == x[0];
      assert (x + post)[1..] == x[1..] + post;
      TrimStartAppend(x[1..], post);
    } else {
      assert (x + post)[0] == x[0];
    }
  }

  lemma {:induction false} AllSpaceTrimsStart(s: string)
    requires AllSpace(s)
    ensures TrimStart(s) == []
  {
    if s != [] { assert AllSpace(s[1..]); AllSpaceTrimsStart(s[1..]); }
  }

  lemma {:induction false} AllSpaceTrimsEnd(s: string)
    requires AllSpace(s)
    ensures TrimEnd(s) == []
  {
    if s != [] { assert AllSpace(s[..|s| - 1]); AllSpaceTrimsEnd(s[..|s| - 1]); }
  }

  /** Applying `strip` a second time changes nothing. */
  lemma StripIdempotent(s: string)
    ensures Strip(Strip(s)) == Strip(s)
  {
    var r := Strip(s);
    StripSlice(s);
    if r != [] {
      assert TrimStart(r) == r;
      assert TrimEnd(r) == r;
    }
  }

  /** A text that neither starts nor ends with whitespace is its own `strip`. */
  lemma StripUnpadded(s: string)
    requires s != [] && !IsSpace(s[0]) && !IsSpace(s[|s| - 1])
    ensures Strip(s) == s
  {
    assert TrimStart(s) == s;
  }

  /** ASCII upper-casing of one character. */
  function UpperChar(c: char): char {
    if 'a' <= c <= 'z' then (c as int - 32) as char else c
  }

  /** ASCII lower-casing of one character. */
  function LowerChar(c: char): char {
    if 'A' <= c <= 'Z' then (c as int + 32) as char else c
  }

  function Upper(s: string): (r: string)
    ensures |r| == |s| && forall i :: 0 <= i < |s| ==> r[i] == UpperChar(s[i])
  {
    seq(|s|, i requires 0 <= i < |s| => UpperChar(s[i]))
  }

  function Lower(s: string): (r: string)
    ensures |r| == |s| && forall i :: 0 <= i < |s| ==> r[i] == LowerChar(s[i])
  {
    seq(|s|, i requires 0 <= i < |s| => LowerChar(s[i]))
  }

  /** `str.endswith`. */
  predicate EndsWith(s: string, suffix: string) {
    |suffix| <= |s| && s[|s| - |suffix|..] == suffix
  }

  /** Python's `<` on `str`: lexicographic by code point, a proper prefix first. */
  predicate Less(a: string, b: string)
    decreases |a|
  {
    if a == [] then b != []
    else if b == [] then false
    else if a[0] != b[0] then a[0] < b[0]
    else Less(a[1..], b[1..])
  }

  lemma {:induction false} LessIrreflexive(a: string)
    ensures !Less(a, a)
    decreases |a|
  {
    if a != [] { LessIrreflexive(a[1..]); }
  }

  lemma {:induction false} LessTransitive(a: string, b: string, c: string)
    requires Less(a, b) && Less(b, c)
    ensures Less(a, c)
    decreases |a|
  {
    if a != [] && b != [] && c != [] && a[0] == b[0] && b[0] == c[0] {
      LessTransitive(a[1..], b[1..], c[1..]);
    }
  }

  /** Any two different strings are ordered one way or the other. */
  lemma {:induction false} LessTotal(a: string, b: string)
    requires a != b
    ensures Less(a, b) || Less(b, a)
    decreases |a|
  {
    if a != [] && b != [] && a[0] == b[0] {
      assert a == [a[0]] + a[1..] && b == [b[0]] + b[1..];
      LessTotal(a[1..], b[1..]);
    }
  }

  lemma {:induction false} LessAsymmetric(a: string, b: string)
    requires Less(a, b)
    ensures !Less(b, a)
  {
    if Less(b, a) {
      LessTransitive(a, b, a);
      LessIrreflexive(a);
    }
  }
}

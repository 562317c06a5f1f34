/** The handful of Python `str` operations the benchmark server relies on:
    `isspace`/`strip`, `lower`, `find` and `in`, `startswith`/`endswith`,
    and `split(sep, 1)[1]`. Strings are sequences of code points. */
module Text {

  /** Python's `str.isspace()` for one code point: the characters that
      `str.strip()` without arguments removes. */
  predicate IsSpace(c: char) {
    || c == ' '
    || ('\t' <= c <= '\r')
    || ('\U{1C}' <= c <= '\U{1F}')
    || c == '\U{85}' || c == '\U{A0}' || c == '\U{1680}'
    || ('\U{2000}' <= c <= '\U{200A}')
    || c == '\U{2028}' || c == '\U{2029}' || c == '\U{202F}'
    || c == '\U{205F}' || c == '\U{3000}'
  }

  predicate AllSpace(s: string) {
    forall i | 0 <= i < |s| :: IsSpace(s[i])
  }

  predicate NoSpace(s: string) {
    forall i | 0 <= i < |s| :: !IsSpace(s[i])
  }

  /** Neither end of `s` is whitespace: what `strip()` always returns. */
  predicate IsStripped(s: string) {
    s == [] || (!IsSpace(s[0]) && !IsSpace(s[|s| - 1]))
  }

  /** `s.lstrip()`: the maximal whitespace prefix is removed. */
  function TrimStart(s: string): (r: string)
    ensures |r| <= |s|
    ensures r == [] || !IsSpace(r[0])
  {
    if |s| > 0 && IsSpace(s[0]) then TrimStart(s[1..]) else s
  }

  /** `s.rstrip()`: the maximal whitespace suffix is removed. */
  function TrimEnd(s: string): (r: string)
    ensures |r| <= |s|
    ensures r == [] || !IsSpace(r[|r| - 1])
  {
    if |s| > 0 && IsSpace(s[|s| - 1]) then TrimEnd(s[..|s| - 1]) else s
  }

  /** What `lstrip()` removed is whitespace: `s` is that prefix followed by
      the result. */
  lemma {:induction false} TrimStartSplit(s: string)
    ensures var r := TrimStart(s);
      s == s[..|s| - |r|] + r && AllSpace(s[..|s| - |r|])
    decreases |s|
  {
    if |s| > 0 && IsSpace(s[0]) {
      var t := s[1..];
      TrimStartSplit(t);
      var r := TrimStart(t);
      assert TrimStart(s) == r;
      var p := t[..|t| - |r|];
      assert s[..|s| - |r|] == [s[0]] + p;
      forall i | 0 <= i < |s| - |r| ensures IsSpace(s[i]) {
        if i > 0 {
          assert s[i] == p[i - 1];
        }
      }
    }
  }

  /** What `rstrip()` removed is whitespace: `s` is the result followed by
      that suffix. */
  lemma {:induction false} TrimEndSplit(s: string)
    ensures var r := TrimEnd(s);
      s == r + s[|r|..] && AllSpace(s[|r|..])
    decreases |s|
  {
    if |s| > 0 && IsSpace(s[|s| - 1]) {
      var init := s[..|s| - 1];
      TrimEndSplit(init);
      var r := TrimEnd(s);
      assert s == init + [s[|s| - 1]];
      assert s[|r|..] == init[|r|..] + [s[|s| - 1]];
    }
  }

  /** `s.strip()`. */
  function Strip(s: string): (r: string)
    ensures IsStripped(r)
  {
    var t := TrimStart(s);
    TrimEndSplit(t);
    TrimEnd(t)
  }

  /** What `strip()` removed: `s` is its stripped text between two runs of whitespace. */
  lemma StripSplit(s: string) returns (p: string, q: string)
    ensures s == p + Strip(s) + q && AllSpace(p) && AllSpace(q)
  {
    var t := TrimStart(s);
    TrimStartSplit(s);
    TrimEndSplit(t);
    var r := TrimEnd(t);
    assert Strip(s) == r;
    p := s[..|s| - |t|];
    q := t[|r|..];
    assert s == p + t && t == r + q;
    assert p + (r + q) == p + r + q;
  }

  /** Left-stripping whitespace followed by text that does not start with
      whitespace leaves exactly that text. */
  lemma {:induction false} TrimStartPadded(p: string, u: string)
    requires AllSpace(p) && (u == [] || !IsSpace(u[0]))
    ensures TrimStart(p + u) == u
    decreases |p|
  {
    if p != [] {
      assert (p + u)[1..] == p[1..] + u;
      TrimStartPadded(p[1..], u);
    }
  }

  /** Right-stripping text that does not end in whitespace, followed by
      whitespace, leaves exactly that text. */
  lemma {:induction false} TrimEndPadded(u: string, q: string)
    requires AllSpace(q) && (u == [] || !IsSpace(u[|u| - 1]))
    ensures TrimEnd(u + q) == u
    decreases |q|
  {
    if q != [] {
      assert (u + q)[..|u + q| - 1] == u + q[..|q| - 1];
      TrimEndPadded(u, q[..|q| - 1]);
    } else {
      assert u + q == u;
    }
  }

  /** `strip()` is determined by its two properties: whatever stripped text
      stands between two runs of whitespace is what `strip()` returns. */
  lemma StripUnique(x: string, p: string, r: string, q: string)
    requires x == p + r + q && AllSpace(p) && AllSpace(q) && IsStripped(r)
    ensures Strip(x) == r
  {
    if r == [] {
      assert x == (p + q) + [];
      TrimStartPadded(p + q, []);
    } else {
      assert x == p + (r + q);
      TrimStartPadded(p, r + q);
      TrimEndPadded(r, q);
    }
  }

  /** Trailing whitespace does not change what `strip()` returns. */
  lemma StripPaddedRight(a: string, q: string)
    requires AllSpace(q)
    ensures Strip(a + q) == Strip(a)
  {
    var p2, q2 := StripSplit(a);
    assert a + q == p2 + Strip(a) + (q2 + q);
    StripUnique(a + q, p2, Strip(a), q2 + q);
  }

  /** Stripping text that is already stripped changes nothing. */
  lemma {:induction false} StripStripped(s: string)
    requires IsStripped(s)
    ensures Strip(s) == s
  {
    assert TrimStart(s) == s;
    assert TrimEnd(s) == s;
  }

  /** `w` occurs in `s` starting at index `i`. */
  predicate OccursAt(s: string, w: string, i: int) {
    0 <= i && i + |w| <= |s| && s[i..i + |w|] == w
  }

  lemma OccursAtTail(s: string, w: string, i: int)
    requires |s| > 0 && i >= 1
    ensures OccursAt(s, w, i) <==> OccursAt(s[1..], w, i - 1)
  {
    if i + |w| <= |s| {
      assert s[1..][i - 1..i - 1 + |w|] == s[i..i + |w|];
    }
  }

  /** `s.find(w)`: the least index where `w` occurs, or -1 when it does not. */
  function IndexOf(s: string, w: string): (r: int)
    ensures -1 <= r
    ensures r < 0 ==> forall i :: !OccursAt(s, w, i)
    ensures r >= 0 ==> OccursAt(s, w, r) && forall i | 0 <= i < r :: !OccursAt(s, w, i)
    decreases |s|
  {
    if |s| < |w| then -1
    else if s[..|w|] == w then 0
    else
      var k := IndexOf(s[1..], w);
      assert forall i | i >= 1 :: OccursAt(s, w, i) <==> OccursAt(s[1..], w, i - 1) by {
        forall i | i >= 1 { OccursAtTail(s, w, i); }
      }
      assert !OccursAt(s, w, 0);
      if k < 0 then -1 else k + 1
  }

  /** `w in s`. */
  predicate Contains(s: string, w: string) {
    IndexOf(s, w) >= 0
  }

  /** `s.startswith(p)`. */
  predicate StartsWith(s: string, p: string) {
    |p| <= |s| && s[..|p|] == p
  }

  /** `s.endswith(p)`. */
  predicate EndsWith(s: string, p: string) {
    |p| <= |s| && s[|s| - |p|..] == p
  }

  /** `s.split(sep, 1)[1]`: the text after the first occurrence of `sep`. */
  function AfterFirst(s: string, sep: string): (r: string)
    requires Contains(s, sep)
    ensures OccursAt(s, r, |s| - |r|)
    ensures |r| + |sep| <= |s| && OccursAt(s, sep, |s| - |r| - |sep|)
  {
    var k := IndexOf(s, sep);
    assert s[k + |sep|..][..] == s[|s| - (|s| - k - |sep|)..];
    s[k + |sep|..]
  }

  /** The separator that `split(sep, 1)` cuts at is its first occurrence:
      the result starts right after it, and `sep` occurs nowhere earlier. */
  lemma AfterFirstSpec(s: string, sep: string)
    requires Contains(s, sep)
    ensures var r := AfterFirst(s, sep);
      && OccursAt(s, sep, |s| - |r| - |sep|)
      && forall i | 0 <= i < |s| - |r| - |sep| :: !OccursAt(s, sep, i)
  {
    assert |s| - |AfterFirst(s, sep)| - |sep| == IndexOf(s, sep);
  }

  /** `a` is a contiguous piece of `b`. */
  ghost predicate IsInfix(a: string, b: string) {
    exists i :: OccursAt(b, a, i)
  }

  lemma InfixTrans(a: string, b: string, c: string)
    requires IsInfix(a, b) && IsInfix(b, c)
    ensures IsInfix(a, c)
  {
    var i :| OccursAt(b, a, i);
    var j :| OccursAt(c, b, j);
    assert forall k | 0 <= k < |a| :: c[j + i + k] == b[i + k] == a[k] by {
      assert c[j..j + |b|] == b && b[i..i + |a|] == a;
    }
    assert OccursAt(c, a, j + i);
  }

  lemma StripInfix(s: string)
    ensures IsInfix(Strip(s), s)
  {
    var p, q := StripSplit(s);
    assert s[|p|..|p| + |Strip(s)|] == Strip(s);
    assert OccursAt(s, Strip(s), |p|);
  }

  /** Python's `str.lower()` on one code point. Only the ASCII letters are mapped. */
  function LowerChar(c: char): char {
    if 'A' <= c <= 'Z' then (c as int + 32) as char else c
  }

  /** `s.lower()`. */
  function Lower(s: string): (r: string)
    ensures |r| == |s| && forall i | 0 <= i < |s| :: r[i] == LowerChar(s[i])
  {
    seq(|s|, i requires 0 <= i < |s| => LowerChar(s[i]))
  }

  /** Whitespace on either side of `t` neither creates nor hides an occurrence of
      a word that has no whitespace in it. */
  lemma OccursPadded(p: string, t: string, q: string, w: string, i: int)
    requires AllSpace(p) && AllSpace(q) && |w| > 0 && NoSpace(w)
    ensures OccursAt(p + t + q, w, i) <==> i >= |p| && OccursAt(t, w, i - |p|)
  {
    var s := p + t + q;
    if OccursAt(s, w, i) {
      assert s[i] == w[0];
      assert !IsSpace(s[i]);
      assert i >= |p|;
      assert s[i + |w| - 1] == w[|w| - 1];
      assert i + |w| <= |p| + |t|;
      assert t[i - |p|..i - |p| + |w|] == s[i..i + |w|];
    }
    if i >= |p| && OccursAt(t, w, i - |p|) {
      assert t[i - |p|..i - |p| + |w|] == s[i..i + |w|];
    }
  }

  /** Splitting padded text at the first `sep` gives the split of the unpadded
      text followed by the trailing padding. */
  lemma AfterFirstPadded(p: string, t: string, q: string, sep: string)
    requires AllSpace(p) && AllSpace(q) && |sep| > 0 && NoSpace(sep)
    ensures Contains(p + t + q, sep) <==> Contains(t, sep)
    ensures Contains(t, sep) ==> AfterFirst(p + t + q, sep) == AfterFirst(t, sep) + q
  {
    var s := p + t + q;
    var r1, r2 := IndexOf(s, sep), IndexOf(t, sep);
    if r1 >= 0 {
      OccursPadded(p, t, q, sep, r1);
      assert OccursAt(t, sep, r1 - |p|);
    }
    if r2 >= 0 {
      OccursPadded(p, t, q, sep, r2 + |p|);
      assert r1 >= 0 && r1 <= r2 + |p|;
      OccursPadded(p, t, q, sep, r1);
      assert r1 == r2 + |p|;
      assert s[r1 + |sep|..] == t[r2 + |sep|..] + q;
      assert AfterFirst(s, sep) == s[r1 + |sep|..];
      assert AfterFirst(t, sep) == t[r2 + |sep|..];
    }
  }
}

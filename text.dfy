/** The string operations the filter borrows from Python's `str`:
    `strip()`, `split(sep)[-1]` and the `in` substring test. */
module Text {

  /** The whitespace this model strips: tab, newline, vertical tab, form
      feed, carriage return (codes 9 to 13) and the space. */
  predicate IsSpace(c: char) {
    '\t' <= c <= '\r' || c == ' '
  }

  predicate AllSpace(s: string) {
    forall i | 0 <= i < |s| :: IsSpace(s[i])
  }

  /** `s` with its leading whitespace removed (`str.lstrip()`). */
  function TrimLeft(s: string): string {
    if |s| > 0 && IsSpace(s[0]) then TrimLeft(s[1..]) else s
  }

  /** `s` with its trailing whitespace removed (`str.rstrip()`). */
  function TrimRight(s: string): string {
    if |s| > 0 && IsSpace(s[|s| - 1]) then TrimRight(s[..|s| - 1]) else s
  }

  /** `lstrip()` drops a whitespace-only prefix and stops at the first
      non-whitespace character. */
  lemma {:induction false} TrimLeftSpec(s: string)
    ensures var r := TrimLeft(s);
            |r| <= |s| && r == s[|s| - |r|..] && AllSpace(s[..|s| - |r|])
            && (r == [] || !IsSpace(r[0]))
  {
    if |s| > 0 && IsSpace(s[0]) {
      TrimLeftSpec(s[1..]);
      var r := TrimLeft(s);
      assert s[..|s| - |r|] == [s[0]] + s[1..][..|s| - 1 - |r|];
    }
  }

  /** `rstrip()` drops a whitespace-only suffix and stops at the last
      non-whitespace character. */
  lemma {:induction false} TrimRightSpec(s: string)
    ensures var r := TrimRight(s);
            |r| <= |s| && r == s[..|r|] && AllSpace(s[|r|..])
            && (r == [] || !IsSpace(r[|r| - 1]))
  {
    if |s| > 0 && IsSpace(s[|s| - 1]) {
      TrimRightSpec(s[..|s| - 1]);
      var r := TrimRight(s);
      assert s[|r|..] == s[..|s| - 1][|r|..] + [s[|s| - 1]];
    }
  }

  /** `str.strip()`: `s` without its leading and trailing whitespace. The
      result neither starts nor ends with whitespace. */
  function Strip(s: string): (r: string)
    ensures |r| <= |s|
    ensures r == [] || (!IsSpace(r[0]) && !IsSpace(r[|r| - 1]))
  {
    TrimLeftSpec(s);
    TrimRightSpec(TrimLeft(s));
    TrimRight(TrimLeft(s))
  }

  /** What `strip()` removes is whitespace only, from either end. */
  lemma StripSlice(s: string)
    ensures exists lo :: 0 <= lo <= |s| - |Strip(s)| && Strip(s) == s[lo..lo + |Strip(s)|]
                         && AllSpace(s[..lo]) && AllSpace(s[lo + |Strip(s)|..])
  {
    var t := TrimLeft(s);
    var r := TrimRight(t);
    TrimLeftSpec(s);
    TrimRightSpec(t);
    var lo := |s| - |t|;
    assert t == s[lo..];
    assert r == s[lo..lo + |r|];
    assert s[lo + |r|..] == t[|r|..];
    assert AllSpace(s[..lo]) && AllSpace(s[lo + |r|..]);
    assert 0 <= lo <= |s| - |r| && r == s[lo..lo + |r|];
  }

  lemma {:induction false} TrimLeftSkips(a: string, t: string)
    requires AllSpace(a)
    requires t == [] || !IsSpace(t[0])
    ensures TrimLeft(a + t) == t
  {
    if a != [] {
      assert (a + t)[1..] == a[1..] + t;
      TrimLeftSkips(a[1..], t);
    }
  }

  lemma {:induction false} TrimRightSkips(t: string, b: string)
    requires AllSpace(b)
    requires t == [] || !IsSpace(t[|t| - 1])
    ensures TrimRight(t + b) == t
  {
    if b != [] {
      assert (t + b)[..|t + b| - 1] == t + b[..|b| - 1];
      TrimRightSkips(t, b[..|b| - 1]);
    }
  }

  /** Strip is determined by its contract: whatever is surrounded by
      whitespace only and has non-whitespace ends is what `strip()` returns. */
  lemma StripUnique(a: string, m: string, b: string)
    requires AllSpace(a) && AllSpace(b)
    requires m == [] || (!IsSpace(m[0]) && !IsSpace(m[|m| - 1]))
    ensures Strip(a + m + b) == m
  {
    if m == [] {
      assert a + m + b == (a + b) + [];
      TrimLeftSkips(a + b, []);
    } else {
      assert a + m + b == a + (m + b);
      TrimLeftSkips(a, m + b);
      TrimRightSkips(m, b);
    }
  }

  lemma StripIdempotent(s: string)
    ensures Strip(Strip(s)) == Strip(s)
  {
    var m := Strip(s);
    assert [] + m + [] == m;
    StripUnique([], m, []);
  }

  /** Stripping only removes characters. */
  lemma StripKeepsOut(s: string, c: char)
    requires c !in s
    ensures c !in Strip(s)
  {
    var t := TrimLeft(s);
    var r := TrimRight(t);
    TrimLeftSpec(s);
    TrimRightSpec(t);
    assert forall k | 0 <= k < |r| :: r[k] == t[k] == s[|s| - |t| + k];
  }

  /** A line as reading a text file line by line yields it: a newline can
      only be its last character. */
  predicate IsFileLine(line: string) {
    forall j | 0 <= j < |line| - 1 :: line[j] != '\n'
  }

  /** Stripping a file line removes its only possible newline. */
  lemma StripRemovesNewline(line: string)
    requires IsFileLine(line)
    ensures '\n' !in Strip(line)
  {
    var t := TrimLeft(line);
    var r := TrimRight(t);
    TrimLeftSpec(line);
    TrimRightSpec(t);
    var lo := |line| - |t|;
    forall j | 0 <= j < |r|
      ensures r[j] != '\n'
    {
      if j < |r| - 1 {
        assert r[j] == t[j] == line[lo + j];
      } else {
        assert IsSpace('\n');
      }
    }
  }

  /** Python's `s.split(sep)[-1]`: the text after the last `sep` in `s`,
      or all of `s` when it holds no `sep`. */
  function LastField(s: string, sep: char): (r: string)
    ensures sep !in r
    ensures |r| <= |s| && r == s[|s| - |r|..]
    ensures |r| < |s| ==> s[|s| - |r| - 1] == sep
  {
    if s == [] then []
    else if s[|s| - 1] == sep then []
    else
      var r := LastField(s[..|s| - 1], sep);
      assert s[|s| - |r| - 1..] == s[..|s| - 1][|s| - 1 - |r|..] + [s[|s| - 1]];
      r + [s[|s| - 1]]
  }

  /** The field after the last separator is what `split(sep)[-1]` gives. */
  lemma {:induction false} LastFieldAfterLastSep(p: string, sep: char, q: string)
    requires sep !in q
    ensures LastField(p + [sep] + q, sep) == q
  {
    if q != [] {
      var s := p + [sep] + q;
      assert s[..|s| - 1] == p + [sep] + q[..|q| - 1];
      LastFieldAfterLastSep(p, sep, q[..|q| - 1]);
      assert q == q[..|q| - 1] + [q[|q| - 1]];
    }
  }

  /** Without a separator, the last field is the whole string. */
  lemma {:induction false} LastFieldWithoutSep(s: string, sep: char)
    requires sep !in s
    ensures LastField(s, sep) == s
  {
    if s != [] {
      var p, c := s[..|s| - 1], s[|s| - 1];
      assert sep !in p by {
        assert forall k | 0 <= k < |p| :: p[k] == s[k];
      }
      LastFieldWithoutSep(p, sep);
      assert c != sep;
      assert LastField(s, sep) == LastField(p, sep) + [c];
      assert p + [c] == s;
    }
  }

  predicate OccursAt(hay: string, needle: string, i: int) {
    0 <= i && i + |needle| <= |hay| && hay[i..i + |needle|] == needle
  }

  /** Python's `needle in hay` on two strings: substring containment. The
      empty string occurs in every string, the empty one included. */
  function Contains(hay: string, needle: string): (b: bool)
    ensures b <==> exists i :: OccursAt(hay, needle, i)
  {
    if needle <= hay then
      assert OccursAt(hay, needle, 0);
      true
    else if hay == [] then
      false
    else
      var b := Contains(hay[1..], needle);
      assert forall i :: OccursAt(hay, needle, i) && i > 0 ==> OccursAt(hay[1..], needle, i - 1);
      assert forall i :: OccursAt(hay[1..], needle, i) ==> OccursAt(hay, needle, i + 1);
      b
  }
}

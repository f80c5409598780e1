/** The Python text operations the announcements router relies on:
    `str.isspace()`, `str.strip()` and the `<=` ordering of `str` values
    (code point by code point; MongoDB's string comparison agrees with it). */
module PyStrings {

  /** True exactly for the characters Python's `str.isspace()` accepts. */
  predicate IsSpace(c: char) {
    var n := c as int;
    || n == 0x20 || 0x09 <= n <= 0x0D || 0x1C <= n <= 0x1F
    || n == 0x85 || n == 0xA0 || n == 0x1680
    || 0x2000 <= n <= 0x200A || n == 0x2028 || n == 0x2029
    || n == 0x202F || n == 0x205F || n == 0x3000
  }

  /** Every character is white space (the empty string included). */
  predicate IsBlank(s: string) {
    forall i | 0 <= i < |s| :: IsSpace(s[i])
  }

  /** Neither end of `s` is white space. */
  predicate IsTrimmed(s: string) {
    s == [] || (!IsSpace(s[0]) && !IsSpace(s[|s| - 1]))
  }

  /** `s.lstrip()`: the longest suffix of `s` that does not start with white space. */
  function TrimStart(s: string): (r: string)
    ensures |r| <= |s| && r == s[|s| - |r|..]
    ensures r == [] || !IsSpace(r[0])
    ensures forall i | 0 <= i < |s| - |r| :: IsSpace(s[i])
  {
    if s != [] && IsSpace(s[0]) then TrimStart(s[1..]) else s
  }

  /** `s.rstrip()`: the longest prefix of `s` that does not end with white space. */
  function TrimEnd(s: string): (r: string)
    ensures |r| <= |s| && r == s[..|r|]
    ensures r == [] || !IsSpace(r[|r| - 1])
    ensures forall i | |r| <= i < |s| :: IsSpace(s[i])
  {
    if s != [] && IsSpace(s[|s| - 1]) then TrimEnd(s[..|s| - 1]) else s
  }

  /** Nothing is left of a blank string after `lstrip`. */
  lemma {:induction false} BlankTrimStart(s: string)
    requires IsBlank(s)
    ensures TrimStart(s) == []
  {
    if s != [] {
      assert IsBlank(s[1..]);
      BlankTrimStart(s[1..]);
    }
  }

  /** `s.strip()`: `s` without its leading and trailing white space; it is
      empty exactly when `s` is blank. */
  function Strip(s: string): (r: string)
    ensures IsTrimmed(r)
    ensures r == [] <==> IsBlank(s)
  {
    StripEmptyIffBlank(s);
    TrimEnd(TrimStart(s))
  }

  lemma StripEmptyIffBlank(s: string)
    ensures TrimEnd(TrimStart(s)) == [] <==> IsBlank(s)
  {
    var t := TrimStart(s);
    if IsBlank(s) {
      BlankTrimStart(s);
    }
    if TrimEnd(t) == [] {
      var i := |s| - |t|;
      assert s == s[..i] + t[0..];
      BlankConcat(s[..i], t[0..]);
    }
  }

  /** `r` is the slice of `s` from `i`, with only white space before and after it. */
  predicate SliceBetweenBlanks(s: string, i: int, r: string) {
    0 <= i <= |s| - |r| && r == s[i..i + |r|] && IsBlank(s[..i]) && IsBlank(s[i + |r|..])
  }

  /** What `strip` keeps is a slice of `s` with only white space around it. */
  lemma StripIsSlice(s: string)
    ensures exists i :: SliceBetweenBlanks(s, i, Strip(s))
  {
    var t := TrimStart(s);
    var r := Strip(s);
    assert r == TrimEnd(t);
    TrimStartCutsBlank(s);
    TrimEndCutsBlank(t);
    PrefixOfSuffix(s, |s| - |t|, t, r);
  }

  /** A prefix `r` of the suffix `t` of `s` from `i`, with white space cut
      off before and after it, is a slice between blanks. */
  lemma PrefixOfSuffix(s: string, i: int, t: string, r: string)
    requires 0 <= i <= |s| && t == s[i..] && IsBlank(s[..i])
    requires |r| <= |t| && r == t[..|r|] && IsBlank(t[|r|..])
    ensures SliceBetweenBlanks(s, i, r)
  {
    assert s[i + |r|..] == t[|r|..];
  }

  /** What `lstrip` cuts off is white space. */
  lemma TrimStartCutsBlank(s: string)
    ensures IsBlank(s[..|s| - |TrimStart(s)|])
  {
    var before := s[..|s| - |TrimStart(s)|];
    forall k | 0 <= k < |before| ensures IsSpace(before[k]) {
      assert before[k] == s[k];
    }
  }

  /** What `rstrip` cuts off is white space. */
  lemma TrimEndCutsBlank(s: string)
    ensures IsBlank(s[|TrimEnd(s)|..])
  {
    var after := s[|TrimEnd(s)|..];
    forall k | 0 <= k < |after| ensures IsSpace(after[k]) {
      assert after[k] == s[|TrimEnd(s)| + k];
    }
  }

  lemma BlankConcat(a: string, b: string)
    requires IsBlank(a) && IsBlank(b)
    ensures IsBlank(a + b)
  {
  }

  /** Python's `a <= b` on `str`: lexicographic by code point. */
  predicate LexLe(a: string, b: string) {
    if a == [] then true
    else if b == [] then false
    else if a[0] != b[0] then a[0] < b[0]
    else LexLe(a[1..], b[1..])
  }

  lemma {:induction false} LexLeAntisymmetric(a: string, b: string)
    requires LexLe(a, b) && LexLe(b, a)
    ensures a == b
  {
    if a != [] && b != [] {
      LexLeAntisymmetric(a[1..], b[1..]);
      assert a == [a[0]] + a[1..] && b == [b[0]] + b[1..];
    }
  }

  lemma {:induction false} LexLeTotal(a: string, b: string)
    ensures LexLe(a, b) || LexLe(b, a)
  {
    if a != [] && b != [] && a[0] == b[0] { LexLeTotal(a[1..], b[1..]); }
  }

  lemma {:induction false} LexLeTransitive(a: string, b: string, c: string)
    requires LexLe(a, b) && LexLe(b, c)
    ensures LexLe(a, c)
  {
    if a != [] && b != [] && c != [] && a[0] == b[0] && b[0] == c[0] {
      LexLeTransitive(a[1..], b[1..], c[1..]);
    }
  }

  /** Comparing two strings whose first parts have the same length decides
      on the first parts unless they are equal. */
  lemma {:induction false} LexLeConcat(x: string, y: string, x': string, y': string)
    requires |x| == |x'|
    ensures LexLe(x + y, x' + y') == if x == x' then LexLe(y, y') else LexLe(x, x')
  {
    if x == [] {
      assert x + y == y && x' + y' == y';
    } else {
      assert (x + y)[0] == x[0] && (x' + y')[0] == x'[0];
      assert (x + y)[1..] == x[1..] + y && (x' + y')[1..] == x'[1..] + y';
      LexLeConcat(x[1..], y, x'[1..], y');
      if x[0] == x'[0] && x[1..] == x'[1..] {
        assert x == [x[0]] + x[1..] && x' == [x'[0]] + x'[1..];
      }
      if x == x' {
        assert x[1..] == x'[1..];
      }
    }
  }
}

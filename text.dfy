/**
 * String primitives the server and the client pages use: JavaScript's notion
 * of white space (what `\s` matches and what `trim()` removes), `trim()`,
 * `toLowerCase()`, decimal digits, and the case-insensitive comparison the
 * database's collation performs.
 */
module Text {

  /** JavaScript's WhiteSpace and LineTerminator code points. */
  predicate IsSpace(c: char) {
    || c == ' ' || c == '\t' || c == '\n' || c == '\r' || c == '\U{000B}' || c == '\U{000C}'
    || c == '\U{00A0}' || c == '\U{1680}' || ('\U{2000}' <= c <= '\U{200A}')
    || c == '\U{2028}' || c == '\U{2029}' || c == '\U{202F}' || c == '\U{205F}'
    || c == '\U{3000}' || c == '\U{FEFF}'
  }

  predicate AllSpace(s: string) {
    forall k :: 0 <= k < |s| ==> IsSpace(s[k])
  }

  /** `\d` in a JavaScript regular expression: an ASCII decimal digit. */
  predicate IsDigit(c: char) {
    '0' <= c <= '9'
  }

  predicate AllDigits(s: string) {
    forall k :: 0 <= k < |s| ==> IsDigit(s[k])
  }

  /** A character JavaScript stores as one UTF-16 code unit: one of the Basic Multilingual Plane. */
  predicate InBmp(c: char) {
    c as int < 0x1_0000
  }

  predicate AllBmp(s: string) {
    forall k :: 0 <= k < |s| ==> InBmp(s[k])
  }

  /**
   * JavaScript's `length`: the number of UTF-16 code units, two for every
   * character outside the Basic Multilingual Plane. It equals the number of
   * characters exactly when all of them are in that plane.
   */
  function Utf16Length(s: string): (n: nat)
    ensures |s| <= n <= 2 * |s|
    ensures n == |s| <==> AllBmp(s)
  {
    if s == [] then 0
    else
      var n := (if InBmp(s[0]) then 1 else 2) + Utf16Length(s[1..]);
      assert AllBmp(s) <==> InBmp(s[0]) && AllBmp(s[1..]) by {
        assert forall k :: 0 < k < |s| ==> s[k] == s[1..][k - 1];
      }
      n
  }

  /** Decimal digits are one code unit each. */
  lemma DigitsUtf16Length(s: string)
    requires AllDigits(s)
    ensures Utf16Length(s) == |s|
  {
    assert AllBmp(s);
  }

  /** A character outside the plane is one character but two code units. */
  lemma AstralCountsTwice(c: char)
    requires !InBmp(c)
    ensures |[c]| == 1 && Utf16Length([c]) == 2
  {
    assert [c][1..] == [];
  }

  /** Code units add up over concatenation, so a length is the sum of its characters' widths. */
  lemma {:induction false} Utf16LengthAppend(a: string, b: string)
    ensures Utf16Length(a + b) == Utf16Length(a) + Utf16Length(b)
    decreases |a|
  {
    if a == [] {
      assert a + b == b;
    } else {
      assert (a + b)[0] == a[0] && (a + b)[1..] == a[1..] + b;
      Utf16LengthAppend(a[1..], b);
    }
  }

  /** Removes leading white space: the result is the longest suffix of `s` that does not start with a space. */
  function TrimStart(s: string): (r: string)
    ensures |r| <= |s| && r == s[|s| - |r|..]
    ensures AllSpace(s[..|s| - |r|])
    ensures r != [] ==> !IsSpace(r[0])
  {
    if s != [] && IsSpace(s[0]) then
      var r := TrimStart(s[1..]);
      assert s[..|s| - |r|] == [s[0]] + s[1..][..|s| - 1 - |r|];
      r
    else s
  }

  /** Removes trailing white space: the result is the longest prefix of `s` that does not end with a space. */
  function TrimEnd(s: string): (r: string)
    ensures |r| <= |s| && r == s[..|r|]
    ensures AllSpace(s[|r|..])
    ensures r != [] ==> !IsSpace(r[|r| - 1])
  {
    if s != [] && IsSpace(s[|s| - 1]) then
      var r := TrimEnd(s[..|s| - 1]);
      assert s[|r|..] == s[..|s| - 1][|r|..] + [s[|s| - 1]];
      r
    else s
  }

  /** `String.prototype.trim`. */
  function Trim(s: string): (r: string)
    ensures exists i, j :: 0 <= i <= j <= |s| && r == s[i..j] && AllSpace(s[..i]) && AllSpace(s[j..])
    ensures r != [] ==> !IsSpace(r[0]) && !IsSpace(r[|r| - 1])
  {
    var t := TrimStart(s);
    var r := TrimEnd(t);
    TrimParts(s, t, r);
    r
  }

  /**
   * A prefix `r` of a suffix `t` of `s`, each with only white space cut off,
   * is a slice of `s` between white space that neither starts nor ends with
   * white space.
   */
  lemma TrimParts(s: string, t: string, r: string)
    requires |t| <= |s| && t == s[|s| - |t|..]
    requires AllSpace(s[..|s| - |t|])
    requires t != [] ==> !IsSpace(t[0])
    requires |r| <= |t| && r == t[..|r|]
    requires AllSpace(t[|r|..])
    requires r != [] ==> !IsSpace(r[|r| - 1])
    ensures exists i, j :: 0 <= i <= j <= |s| && r == s[i..j] && AllSpace(s[..i]) && AllSpace(s[j..])
    ensures r != [] ==> !IsSpace(r[0]) && !IsSpace(r[|r| - 1])
  {
    var i, j := |s| - |t|, |s| - |t| + |r|;
    assert r == s[i..j];
    assert s[j..] == t[|r|..];
    assert r != [] ==> r[0] == t[0];
  }

  /** A string trims to the empty string exactly when it is all white space: JavaScript's `s.trim()` is falsy exactly then. */
  lemma TrimEmptyIffBlank(s: string)
    ensures Trim(s) == [] <==> AllSpace(s)
  {
    var t := TrimStart(s);
    var r := TrimEnd(t);
    assert Trim(s) == r;
    var n := |s| - |t|;
    if r == [] {
      assert t[|r|..] == t;
      assert s == s[..n] + t;
      AllSpaceConcat(s[..n], t);
    } else {
      assert s[n + |r| - 1] == t[|r| - 1] == r[|r| - 1];
    }
  }

  /** White space followed by white space is white space. */
  lemma AllSpaceConcat(a: string, b: string)
    requires AllSpace(a) && AllSpace(b)
    ensures AllSpace(a + b)
  {
    forall k | 0 <= k < |a + b| ensures IsSpace((a + b)[k]) {
      if k >= |a| {
        assert (a + b)[k] == b[k - |a|];
      }
    }
  }

  /** `toLowerCase` restricted to ASCII letters. */
  function LowerChar(c: char): char {
    if 'A' <= c <= 'Z' then (c as int + 32) as char else c
  }

  /** `String.prototype.toLowerCase`, on ASCII letters; every other character is kept. */
  function Lower(s: string): (r: string)
    ensures |r| == |s|
    ensures forall k :: 0 <= k < |s| ==> !('A' <= r[k] <= 'Z')
    ensures forall k :: 0 <= k < |s| && 'A' <= s[k] <= 'Z' ==> r[k] == (s[k] as int + 32) as char
    ensures forall k :: 0 <= k < |s| && !('A' <= s[k] <= 'Z') ==> r[k] == s[k]
  {
    seq(|s|, k requires 0 <= k < |s| => LowerChar(s[k]))
  }

  /** Lower-casing twice is lower-casing once, so a lower-cased input compares like the raw input. */
  lemma LowerIdempotent(s: string)
    ensures Lower(Lower(s)) == Lower(s)
  {
    var once := Lower(s);
    assert forall k :: 0 <= k < |s| ==> Lower(once)[k] == once[k];
  }

  /** String equality under the database's case-insensitive collation (ASCII case folding). */
  predicate SameText(a: string, b: string) {
    Lower(a) == Lower(b)
  }

  /** Comparing the lower-cased input under the collation is the same as comparing the raw input. */
  lemma SameTextLowered(stored: string, input: string)
    ensures SameText(stored, Lower(input)) <==> SameText(stored, input)
  {
    LowerIdempotent(input);
  }
}

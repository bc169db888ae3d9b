/**
 * The string primitives the entities lean on: Python's `str.strip()` and `str.lower()`,
 * over ASCII.
 */
module Text {

  /**
   * The ASCII characters `str.strip()` treats as whitespace: \t, \n, \v, \f, \r, the four
   * separators U+001C to U+001F, and space.
   */
  predicate IsSpace(c: char) {
    ('\t' <= c <= '\r') || ('\U{1C}' <= c <= ' ')
  }

  /** Empty or whitespace only: the strings a title or name setter refuses. */
  predicate IsBlank(s: string) {
    forall i :: 0 <= i < |s| ==> IsSpace(s[i])
  }

  /** `s.lstrip()`: the longest suffix of `s` that does not start with whitespace. */
  function TrimStart(s: string): (r: string)
    ensures |r| <= |s| && r == s[|s| - |r|..]
    ensures r != [] ==> !IsSpace(r[0])
    ensures forall i :: 0 <= i < |s| - |r| ==> IsSpace(s[i])
  {
    if s != [] && IsSpace(s[0]) then TrimStart(s[1..]) else s
  }

  /** `s.rstrip()`: the longest prefix of `s` that does not end with whitespace. */
  function TrimEnd(s: string): (r: string)
    ensures |r| <= |s| && r == s[..|r|]
    ensures r != [] ==> !IsSpace(r[|r| - 1])
    ensures forall i :: |r| <= i < |s| ==> IsSpace(s[i])
  {
    if s != [] && IsSpace(s[|s| - 1]) then TrimEnd(s[..|s| - 1]) else s
  }

  /** `s.strip()`: what is left after removing the whitespace at both ends. */
  function Strip(s: string): string {
    TrimEnd(TrimStart(s))
  }

  /** Stripping leaves nothing exactly when the string is blank. */
  lemma StripEmptyIffBlank(s: string)
    ensures Strip(s) == [] <==> IsBlank(s)
  {
    var left := TrimStart(s);
    var lo := |s| - |left|;
    if Strip(s) == [] {
      // all of `left` would be whitespace, yet it does not start with any
      assert left == [];
    } else {
      var r := Strip(s);
      assert s[lo] == left[0] == r[0];
    }
  }

  /** The stripped string neither starts nor ends with whitespace. */
  lemma StripTrimsBothEnds(s: string)
    ensures var r := Strip(s); r != [] ==> !IsSpace(r[0]) && !IsSpace(r[|r| - 1])
  {
    var left := TrimStart(s);
    var r := Strip(s);
    if r != [] {
      assert r[0] == left[0];
    }
  }

  /** `r` is `s[lo..]` cut to the length of `r`, with only whitespace on either side of it. */
  predicate TrimmedSliceAt(s: string, r: string, lo: int) {
    && 0 <= lo && lo + |r| <= |s| && r == s[lo..lo + |r|]
    && IsBlank(s[..lo]) && IsBlank(s[lo + |r|..])
  }

  /** The stripped string is a slice of the original with only whitespace cut off on either side. */
  lemma StripIsTrimmedSlice(s: string)
    ensures exists lo :: TrimmedSliceAt(s, Strip(s), lo)
  {
    var left := TrimStart(s);
    var r := Strip(s);
    var lo := |s| - |left|;
    assert left == s[lo..] && r == left[..|r|];
    assert s[lo + |r|..] == left[|r|..];
    assert TrimmedSliceAt(s, r, lo);
  }

  /** Stripping a stripped string changes nothing. */
  lemma {:induction false} StripIdempotent(s: string)
    ensures Strip(Strip(s)) == Strip(s)
  {
    var r := Strip(s);
    if r != [] {
      assert TrimStart(r) == r;
      assert TrimEnd(r) == r;
    }
  }

  /** `c.lower()` for ASCII: upper-case letters map to lower case, everything else is kept. */
  function LowerChar(c: char): char {
    if 'A' <= c <= 'Z' then (c as int + 32) as char else c
  }

  /** `s.lower()`, character by character. */
  function Lower(s: string): (r: string)
    ensures |r| == |s|
    ensures forall i :: 0 <= i < |s| ==> r[i] == LowerChar(s[i])
  {
    seq(|s|, i requires 0 <= i < |s| => LowerChar(s[i]))
  }

  /** A string without upper-case letters is its own lower-case form. */
  lemma LowerUnchanged(s: string)
    requires forall i | 0 <= i < |s| :: !('A' <= s[i] <= 'Z')
    ensures Lower(s) == s
  {
  }

  /** A string that neither starts nor ends with whitespace is its own stripped form. */
  lemma StripUnpadded(s: string)
    requires s != [] && !IsSpace(s[0]) && !IsSpace(s[|s| - 1])
    ensures Strip(s) == s
  {
  }

  /** One space on each side of an unpadded string is stripped off, and nothing more. */
  lemma StripSurrounded(w: string)
    requires w != [] && !IsSpace(w[0]) && !IsSpace(w[|w| - 1])
    ensures Strip([' '] + w + [' ']) == w
  {
    var s := [' '] + w + [' '];
    assert s[1..] == w + [' '];
    assert TrimStart(s) == w + [' '];
    assert (w + [' '])[..|w|] == w;
  }

  lemma {:induction false} TrimStartLower(s: string)
    ensures TrimStart(Lower(s)) == Lower(TrimStart(s))
    decreases |s|
  {
    var l := Lower(s);
    if s != [] && IsSpace(s[0]) {
      assert l[0] == s[0];
      assert l[1..] == Lower(s[1..]);
      assert TrimStart(l) == TrimStart(l[1..]);
      TrimStartLower(s[1..]);
    } else if s != [] {
      assert l[0] == LowerChar(s[0]);
      assert !IsSpace(l[0]);
    }
  }

  lemma {:induction false} TrimEndLower(s: string)
    ensures TrimEnd(Lower(s)) == Lower(TrimEnd(s))
    decreases |s|
  {
    var l := Lower(s);
    if s != [] && IsSpace(s[|s| - 1]) {
      assert l[|s| - 1] == s[|s| - 1];
      assert l[..|s| - 1] == Lower(s[..|s| - 1]);
      assert TrimEnd(l) == TrimEnd(l[..|s| - 1]);
      TrimEndLower(s[..|s| - 1]);
    } else if s != [] {
      assert l[|s| - 1] == LowerChar(s[|s| - 1]);
      assert !IsSpace(l[|s| - 1]);
    }
  }

  /**
   * Lower-casing does not create or remove whitespace, so it makes no difference
   * whether a string is stripped before or after it is lower-cased.
   */
  lemma LowerStripCommute(s: string)
    ensures Strip(Lower(s)) == Lower(Strip(s))
  {
    TrimStartLower(s);
    TrimEndLower(TrimStart(s));
  }
}

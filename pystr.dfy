/**
 * The two Python string methods the ingestor applies to a currency code,
 * `str.upper()` and `str.strip()`, on the ASCII range.
 */
module PyStr {

  /** True of the ASCII characters for which Python's `str.isspace()` holds. */
  predicate IsSpace(c: char) {
    c == ' ' || 9 <= c as int <= 13 || 28 <= c as int <= 31
  }

  predicate AllSpace(s: string) {
    forall i :: 0 <= i < |s| ==> IsSpace(s[i])
  }

  predicate IsLower(c: char) {
    'a' <= c <= 'z'
  }

  function UpperChar(c: char): char {
    if IsLower(c) then (c as int - 32) as char else c
  }

  /** Python `s.upper()`: every ASCII lower-case letter becomes its capital. */
  function Upper(s: string): string {
    seq(|s|, i requires 0 <= i < |s| => UpperChar(s[i]))
  }

  /** Python `s.lstrip()`: drops leading whitespace. */
  function LStrip(s: string): string {
    if s != [] && IsSpace(s[0]) then LStrip(s[1..]) else s
  }

  /** Python `s.rstrip()`: drops trailing whitespace. */
  function RStrip(s: string): string {
    if s != [] && IsSpace(s[|s| - 1]) then RStrip(s[..|s| - 1]) else s
  }

  /** Python `s.strip()`: drops whitespace at both ends. */
  function Strip(s: string): string {
    RStrip(LStrip(s))
  }

  /** `lstrip()` keeps the suffix that starts at the first non-space character. */
  lemma {:induction false} LStripSpec(s: string)
    ensures var r := LStrip(s);
            && |r| <= |s| && r == s[|s| - |r|..]
            && (forall i :: 0 <= i < |s| - |r| ==> IsSpace(s[i]))
            && (r != [] ==> !IsSpace(r[0]))
  {
    if s != [] && IsSpace(s[0]) {
      var t := s[1..];
      LStripSpec(t);
      var r := LStrip(t);
      assert t[|t| - |r|..] == s[|s| - |r|..];
      forall i | 0 <= i < |s| - |r| ensures IsSpace(s[i]) {
        if i > 0 {
          assert s[i] == t[i - 1];
        }
      }
    }
  }

  /** `rstrip()` keeps the prefix that ends at the last non-space character. */
  lemma {:induction false} RStripSpec(s: string)
    ensures var r := RStrip(s);
            && |r| <= |s| && r == s[..|r|]
            && (forall i :: |r| <= i < |s| ==> IsSpace(s[i]))
            && (r != [] ==> !IsSpace(r[|r| - 1]))
  {
    if s != [] && IsSpace(s[|s| - 1]) {
      var t := s[..|s| - 1];
      RStripSpec(t);
      var r := RStrip(t);
      assert t[..|r|] == s[..|r|];
      forall i | |r| <= i < |s| ensures IsSpace(s[i]) {
        if i < |t| {
          assert s[i] == t[i];
        }
      }
    }
  }

  /**
   * `strip()` keeps the infix of its argument that starts after the leading
   * whitespace; it neither starts nor ends with whitespace and has only
   * whitespace around it.
   */
  lemma StripIsInfix(s: string)
    ensures var r := Strip(s);
            var i := |s| - |LStrip(s)|;
            && (r != [] ==> !IsSpace(r[0]) && !IsSpace(r[|r| - 1]))
            && 0 <= i <= |s| - |r| && r == s[i..i + |r|]
            && AllSpace(s[..i]) && AllSpace(s[i + |r|..])
  {
    var l := LStrip(s);
    LStripSpec(s);
    RStripSpec(l);
    var r := RStrip(l);
    var i := |s| - |l|;
    assert r != [] ==> r[0] == l[0];
    assert s[i..][..|r|] == s[i..i + |r|];
    SpaceSlice(s, 0, i);
    assert s[0..i] == s[..i];
    assert forall j :: i + |r| <= j < |s| ==> s[j] == l[j - i];
    SpaceSlice(s, i + |r|, |s|);
    assert s[i + |r|..|s|] == s[i + |r|..];
  }

  lemma SpaceSlice(s: string, lo: nat, hi: nat)
    requires lo <= hi <= |s| && forall j :: lo <= j < hi ==> IsSpace(s[j])
    ensures AllSpace(s[lo..hi])
  {
    assert forall j :: 0 <= j < hi - lo ==> s[lo..hi][j] == s[lo + j];
  }

  /** Stripping cannot bring in a lower-case letter. */
  lemma StripKeepsNoLower(s: string)
    requires forall i :: 0 <= i < |s| ==> !IsLower(s[i])
    ensures forall i :: 0 <= i < |Strip(s)| ==> !IsLower(Strip(s)[i])
  {
    var l := LStrip(s);
    LStripSpec(s);
    RStripSpec(l);
    assert forall i :: 0 <= i < |l| ==> l[i] == s[|s| - |l| + i];
  }

  lemma {:induction false} UpperConcat(a: string, b: string)
    ensures Upper(a + b) == Upper(a) + Upper(b)
  {
    assert forall i :: 0 <= i < |a| + |b| ==> Upper(a + b)[i] == (Upper(a) + Upper(b))[i];
  }

  /** Upper-casing leaves whitespace alone. */
  lemma UpperKeepsSpace(w: string)
    requires AllSpace(w)
    ensures Upper(w) == w
  {
    assert forall i :: 0 <= i < |w| ==> Upper(w)[i] == w[i];
  }

  /** Upper-casing twice is upper-casing once, and leaves no lower-case letter. */
  lemma UpperIdempotent(s: string)
    ensures Upper(Upper(s)) == Upper(s)
    ensures forall i :: 0 <= i < |Upper(s)| ==> !IsLower(Upper(s)[i])
  {
  }

  /** A string without lower-case letters is its own upper case. */
  lemma UpperNoLower(s: string)
    requires forall i :: 0 <= i < |s| ==> !IsLower(s[i])
    ensures Upper(s) == s
  {
  }

  lemma {:induction false} LStripSpacePrefix(w: string, s: string)
    requires AllSpace(w)
    ensures LStrip(w + s) == LStrip(s)
  {
    if w != [] {
      assert (w + s)[0] == w[0];
      assert (w + s)[1..] == w[1..] + s;
      LStripSpacePrefix(w[1..], s);
    } else {
      assert w + s == s;
    }
  }

  lemma {:induction false} RStripSpaceSuffix(s: string, w: string)
    requires AllSpace(w)
    ensures RStrip(s + w) == RStrip(s)
  {
    if w != [] {
      var n := |w| - 1;
      assert (s + w)[|s + w| - 1] == w[n];
      assert (s + w)[..|s + w| - 1] == s + w[..n];
      RStripSpaceSuffix(s, w[..n]);
    } else {
      assert s + w == s;
    }
  }

  lemma {:induction false} StripSpaceSuffix(s: string, w: string)
    requires AllSpace(w)
    ensures RStrip(LStrip(s + w)) == RStrip(LStrip(s))
  {
    if s == [] {
      assert s + w == w;
      LStripSpec(w);
      assert LStrip(w) == [];
    } else if IsSpace(s[0]) {
      assert (s + w)[0] == s[0];
      assert (s + w)[1..] == s[1..] + w;
      StripSpaceSuffix(s[1..], w);
    } else {
      assert (s + w)[0] == s[0];
      RStripSpaceSuffix(s, w);
    }
  }

  /** Surrounding whitespace does not change what `strip()` returns. */
  lemma StripIgnoresPadding(w1: string, s: string, w2: string)
    requires AllSpace(w1) && AllSpace(w2)
    ensures Strip(w1 + s + w2) == Strip(s)
  {
    assert w1 + s + w2 == w1 + (s + w2);
    LStripSpacePrefix(w1, s + w2);
    StripSpaceSuffix(s, w2);
  }

  /** A string that has no surrounding whitespace is its own `strip()`. */
  lemma StripUnpadded(s: string)
    requires s != [] ==> !IsSpace(s[0]) && !IsSpace(s[|s| - 1])
    ensures Strip(s) == s
  {
  }
}

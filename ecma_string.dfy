/** String.prototype.trim of ECMAScript, as the relay applies it to the raw
    request body. Characters are Unicode scalar values; every code point that
    trim removes lies in the Basic Multilingual Plane, so working on code
    points rather than UTF-16 code units changes nothing for trim. */
module EcmaString {

  /** WhiteSpace (section 12.2 of ECMA-262, 2023 edition): TAB, VT, FF,
      ZWNBSP and every code point of general category Space_Separator (Zs). */
  predicate IsWhiteSpace(c: char) {
    c == '\t' || c == '\U{000B}' || c == '\U{000C}' || c == '\U{FEFF}' || IsSpaceSeparator(c)
  }

  /** General category Zs as of Unicode 15. */
  predicate IsSpaceSeparator(c: char) {
    c == ' ' || c == '\U{00A0}' || c == '\U{1680}' || ('\U{2000}' <= c <= '\U{200A}')
    || c == '\U{202F}' || c == '\U{205F}' || c == '\U{3000}'
  }

  /** LineTerminator (section 12.3 of ECMA-262): LF, CR, LS and PS. */
  predicate IsLineTerminator(c: char) {
    c == '\n' || c == '\r' || c == '\U{2028}' || c == '\U{2029}'
  }

  /** What trim strips: the union of WhiteSpace and LineTerminator. */
  predicate IsTrimmable(c: char) {
    IsWhiteSpace(c) || IsLineTerminator(c)
  }

  predicate AllTrimmable(s: string) {
    forall i :: 0 <= i < |s| ==> IsTrimmable(s[i])
  }

  /** Leading white space removed: the longest suffix that does not start
      with a trimmable code point. */
  function TrimStart(s: string): (r: string)
    ensures |r| <= |s| && r == s[|s| - |r|..]
    ensures r == [] || !IsTrimmable(r[0])
    ensures AllTrimmable(s[..|s| - |r|])
  {
    if s != [] && IsTrimmable(s[0]) then
      var r := TrimStart(s[1..]);
      TrimStartStep(s, r);
      r
    else s
  }

  lemma TrimStartStep(s: string, r: string)
    requires s != [] && IsTrimmable(s[0])
    requires |r| <= |s| - 1 && r == s[1..][|s| - 1 - |r|..] && AllTrimmable(s[1..][..|s| - 1 - |r|])
    ensures r == s[|s| - |r|..] && AllTrimmable(s[..|s| - |r|])
  {
    var k := |s| - |r|;
    assert s[1..][k - 1..] == s[k..];
    forall i | 0 <= i < k ensures IsTrimmable(s[..k][i]) {
      if i > 0 {
        assert s[..k][i] == s[1..][..k - 1][i - 1];
      }
    }
  }

  /** Trailing white space removed: the longest prefix that does not end
      with a trimmable code point. */
  function TrimEnd(s: string): (r: string)
    ensures |r| <= |s| && r == s[..|r|]
    ensures r == [] || !IsTrimmable(r[|r| - 1])
    ensures AllTrimmable(s[|r|..])
  {
    if s != [] && IsTrimmable(s[|s| - 1]) then TrimEnd(s[..|s| - 1]) else s
  }

  /** String.prototype.trim (the abstract operation TrimString of ECMA-262
      with "start+end"): the slice s[lo..hi] left after the trimmable code
      points at both ends are removed. */
  function Trim(s: string): (r: string)
    ensures IsTrimOf(s, r)
  {
    var t := TrimStart(s);
    var r := TrimEnd(t);
    TrimBothEnds(s, t, r);
    r
  }

  lemma TrimBothEnds(s: string, t: string, r: string)
    requires |t| <= |s| && t == s[|s| - |t|..] && AllTrimmable(s[..|s| - |t|])
    requires |r| <= |t| && r == t[..|r|] && AllTrimmable(t[|r|..])
    requires r == [] || (!IsTrimmable(r[0]) && !IsTrimmable(r[|r| - 1]))
    ensures IsTrimSlice(s, |s| - |t|, |s| - |t| + |r|) && r == s[|s| - |t|..|s| - |t| + |r|]
  {
    var lo := |s| - |t|;
    var hi := lo + |r|;
    assert t[|r|..] == s[hi..];
    assert r == s[lo..hi];
  }

  /** s[lo..hi] is what trim leaves of s: only trimmable code points are cut
      away, and the slice neither starts nor ends with one. */
  predicate IsTrimSlice(s: string, lo: int, hi: int) {
    0 <= lo <= hi <= |s|
    && AllTrimmable(s[..lo]) && AllTrimmable(s[hi..])
    && (lo < hi ==> !IsTrimmable(s[lo]) && !IsTrimmable(s[hi - 1]))
  }

  ghost predicate IsTrimOf(s: string, r: string) {
    exists lo: int, hi: int :: IsTrimSlice(s, lo, hi) && r == s[lo..hi]
  }

  /** There is only one way to trim a string: any slice that has the
      properties of IsTrimSlice is the one Trim returns. */
  lemma TrimUnique(s: string, lo: int, hi: int)
    requires IsTrimSlice(s, lo, hi)
    ensures Trim(s) == s[lo..hi]
  {
    var lo', hi' :| IsTrimSlice(s, lo', hi') && Trim(s) == s[lo'..hi'];
    SliceBoundsAgree(s, lo, hi, lo', hi');
  }

  lemma SliceBoundsAgree(s: string, lo: int, hi: int, lo': int, hi': int)
    requires IsTrimSlice(s, lo, hi) && IsTrimSlice(s, lo', hi')
    ensures s[lo..hi] == s[lo'..hi']
  {
    BordersTrimmable(s, lo, hi);
    BordersTrimmable(s, lo', hi');
    // a non-trimmable code point never lies in a trimmed-away border
    assert lo < hi <==> lo' < hi';
    if lo < hi {
      assert lo == lo' && hi == hi';
    }
  }

  lemma BordersTrimmable(s: string, lo: int, hi: int)
    requires IsTrimSlice(s, lo, hi)
    ensures forall i :: 0 <= i < lo ==> IsTrimmable(s[i])
    ensures forall i :: hi <= i < |s| ==> IsTrimmable(s[i])
  {
    forall i | 0 <= i < lo ensures IsTrimmable(s[i]) { assert s[..lo][i] == s[i]; }
    forall i | hi <= i < |s| ensures IsTrimmable(s[i]) { assert s[hi..][i - hi] == s[i]; }
  }

  /** Trimming a trimmed string changes nothing. */
  lemma TrimIdempotent(s: string)
    ensures Trim(Trim(s)) == Trim(s)
  {
    var r := Trim(s);
    var lo, hi :| IsTrimSlice(s, lo, hi) && r == s[lo..hi];
    assert IsTrimSlice(r, 0, |r|);
    TrimUnique(r, 0, |r|);
  }

  /** Trim yields the empty string exactly for strings made only of white
      space and line terminators (the empty string included). */
  lemma TrimEmptyIff(s: string)
    ensures Trim(s) == [] <==> AllTrimmable(s)
  {
    if AllTrimmable(s) {
      assert IsTrimSlice(s, 0, 0);
      TrimUnique(s, 0, 0);
    } else {
      var r := Trim(s);
      var lo, hi :| IsTrimSlice(s, lo, hi) && r == s[lo..hi];
      BordersTrimmable(s, lo, hi);
    }
  }

  /** Trim never touches a string that has no trimmable code point at
      either end. */
  lemma TrimKeepsInner(s: string)
    requires s == [] || (!IsTrimmable(s[0]) && !IsTrimmable(s[|s| - 1]))
    ensures Trim(s) == s
  {
    assert IsTrimSlice(s, 0, |s|);
    TrimUnique(s, 0, |s|);
  }

  /** Trim keeps the first two code points of a string when neither is
      trimmable. */
  lemma TrimKeepsOpening(s: string)
    requires |s| > 1 && !IsTrimmable(s[0]) && !IsTrimmable(s[1])
    ensures |Trim(s)| > 1 && Trim(s)[0] == s[0] && Trim(s)[1] == s[1]
  {
    var t := Trim(s);
    var lo, hi :| IsTrimSlice(s, lo, hi) && t == s[lo..hi];
    BordersTrimmable(s, lo, hi);
    assert lo == 0;
    assert hi >= 2;
  }
}

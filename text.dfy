/** The part of JavaScript's String.prototype.trim that input validation relies on. */
module Text {

  /** The code points trim removes: ECMAScript's WhiteSpace and LineTerminator characters. */
  const WhitespaceCodes: set<int> := {
    0x09, 0x0A, 0x0B, 0x0C, 0x0D, 0x20, 0xA0, 0x1680,
    0x2000, 0x2001, 0x2002, 0x2003, 0x2004, 0x2005, 0x2006, 0x2007, 0x2008, 0x2009, 0x200A,
    0x2028, 0x2029, 0x202F, 0x205F, 0x3000, 0xFEFF}

  predicate IsWhitespace(ch: char) {
    ch as int in WhitespaceCodes
  }

  /** True when every character of s is whitespace (also for the empty string). */
  predicate Blank(s: string) {
    forall i :: 0 <= i < |s| ==> IsWhitespace(s[i])
  }

  /** The first position at or after i that does not hold whitespace, or |s|. */
  function SkipForward(s: string, i: nat): (j: nat)
    requires i <= |s|
    ensures i <= j <= |s|
    ensures forall m :: i <= m < j ==> IsWhitespace(s[m])
    ensures j < |s| ==> !IsWhitespace(s[j])
    decreases |s| - i
  {
    if i < |s| && IsWhitespace(s[i]) then SkipForward(s, i + 1) else i
  }

  /** The start of the whitespace run that ends at i, not going below lo. */
  function SkipBackward(s: string, lo: nat, i: nat): (j: nat)
    requires lo <= i <= |s|
    ensures lo <= j <= i
    ensures forall m :: j <= m < i ==> IsWhitespace(s[m])
    ensures j > lo ==> !IsWhitespace(s[j - 1])
    decreases i
  {
    if i > lo && IsWhitespace(s[i - 1]) then SkipBackward(s, lo, i - 1) else i
  }

  /**
   * s without its leading and trailing whitespace: the part between the end of
   * the leading run and the start of the trailing run.
   */
  function Trim(s: string): (r: string)
    ensures |r| <= |s|
    ensures r != [] ==> !IsWhitespace(r[0]) && !IsWhitespace(r[|r| - 1])
    ensures r == [] <==> Blank(s)
    ensures exists k :: 0 <= k <= |s| - |r| && r == s[k..k + |r|] && Blank(s[..k]) && Blank(s[k + |r|..])
  {
    var k := SkipForward(s, 0);
    var e := SkipBackward(s, k, |s|);
    TrimBounds(s, k, e);
    s[k..e]
  }

  /** The facts about the two cuts that the contract of Trim needs. */
  lemma TrimBounds(s: string, k: nat, e: nat)
    requires k == SkipForward(s, 0) && e == SkipBackward(s, k, |s|)
    ensures Blank(s[..k]) && Blank(s[e..])
    ensures k < e ==> !IsWhitespace(s[k]) && !IsWhitespace(s[e - 1])
    ensures k == e <==> Blank(s)
  {
    assert forall m :: 0 <= m < k ==> s[..k][m] == s[m];
    assert forall m :: 0 <= m < |s| - e ==> s[e..][m] == s[e + m];
    if k == e {
      assert forall m :: 0 <= m < |s| ==> IsWhitespace(s[m]);
    }
  }
}

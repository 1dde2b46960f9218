/** The JavaScript `String.prototype.trim` the root-comment handler uses,
    both to reject a blank draft and to clean the text it sends. */
module Text {

  /** The characters `trim` removes: the ECMAScript WhiteSpace characters
      (tab, vertical tab, form feed, the byte-order mark and the Unicode space
      separators) and the LineTerminator characters. */
  predicate IsWhitespace(ch: char)
  {
    ch in {'\t', '\n', '\U{000B}', '\U{000C}', '\r', ' ', '\U{00A0}', '\U{1680}',
           '\U{2000}', '\U{2001}', '\U{2002}', '\U{2003}', '\U{2004}', '\U{2005}',
           '\U{2006}', '\U{2007}', '\U{2008}', '\U{2009}', '\U{200A}',
           '\U{2028}', '\U{2029}', '\U{202F}', '\U{205F}', '\U{3000}', '\U{FEFF}'}
  }

  /** Nothing but whitespace, the empty string included. */
  predicate Blank(s: string)
  {
    forall i :: 0 <= i < |s| ==> IsWhitespace(s[i])
  }

  /** How many whitespace characters `s` starts with. */
  function LeadingBlanks(s: string): (k: nat)
    ensures k <= |s|
    ensures forall i :: 0 <= i < k ==> IsWhitespace(s[i])
    ensures k < |s| ==> !IsWhitespace(s[k])
  {
    if s != [] && IsWhitespace(s[0]) then
      var k := LeadingBlanks(s[1..]);
      assert forall i :: 1 <= i < k + 1 ==> s[i] == s[1..][i - 1];
      1 + k
    else 0
  }

  /** How many whitespace characters `s` ends with. */
  function TrailingBlanks(s: string): (k: nat)
    ensures k <= |s|
    ensures forall i :: |s| - k <= i < |s| ==> IsWhitespace(s[i])
    ensures k < |s| ==> !IsWhitespace(s[|s| - 1 - k])
  {
    if s != [] && IsWhitespace(s[|s| - 1]) then
      var k := TrailingBlanks(s[..|s| - 1]);
      assert forall i :: |s| - 1 - k <= i < |s| - 1 ==> s[i] == s[..|s| - 1][i];
      1 + k
    else 0
  }

  /** Whitespace cut from both ends: `s` is a blank prefix, then the result,
      then a blank suffix, and the result neither starts nor ends with
      whitespace. */
  function Trim(s: string): (r: string)
    ensures r == [] || (!IsWhitespace(r[0]) && !IsWhitespace(r[|r| - 1]))
    ensures LeadingBlanks(s) + |r| <= |s|
    ensures r == s[LeadingBlanks(s)..LeadingBlanks(s) + |r|]
    ensures forall i :: 0 <= i < |s| && !(LeadingBlanks(s) <= i < LeadingBlanks(s) + |r|) ==>
              IsWhitespace(s[i])
  {
    var a := LeadingBlanks(s);
    var t := s[a..];
    var b := TrailingBlanks(t);
    assert forall i :: a <= i < |s| ==> s[i] == t[i - a];
    t[..|t| - b]
  }

  /** A draft trims to the empty string exactly when it is blank. */
  lemma TrimEmptyIffBlank(s: string)
    ensures Trim(s) == [] <==> Blank(s)
  {
    var r := Trim(s);
    if r != [] {
      assert s[LeadingBlanks(s)] == r[0];
    }
  }
}

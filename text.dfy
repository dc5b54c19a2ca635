/**
  `String.prototype.trim` of ECMAScript: strips WhiteSpace and
  LineTerminator code points from both ends of a string.
 */
module Text {

  /** ECMAScript WhiteSpace (TAB, VT, FF, ZWNBSP and category Zs) and LineTerminator (LF, CR, LS, PS). */
  predicate IsTrimmable(c: char) {
    || c == '\U{0009}' || c == '\U{000B}' || c == '\U{000C}' || c == '\U{0020}'
    || c == '\U{00A0}' || c == '\U{FEFF}' || c == '\U{1680}'
    || ('\U{2000}' <= c <= '\U{200A}')
    || c == '\U{202F}' || c == '\U{205F}' || c == '\U{3000}'
    || c == '\U{000A}' || c == '\U{000D}' || c == '\U{2028}' || c == '\U{2029}'
  }

  /** Length of the longest trimmable prefix. */
  function LeadingCount(s: string): (n: nat)
    ensures n <= |s|
    ensures forall i :: 0 <= i < n ==> IsTrimmable(s[i])
    ensures n < |s| ==> !IsTrimmable(s[n])
  {
    if s == [] || !IsTrimmable(s[0]) then 0
    else
      var n := 1 + LeadingCount(s[1..]);
      assert forall i :: 1 <= i < n ==> s[i] == s[1..][i - 1];
      n
  }

  /** Length of the longest trimmable suffix. */
  function TrailingCount(s: string): (n: nat)
    ensures n <= |s|
    ensures forall i :: |s| - n <= i < |s| ==> IsTrimmable(s[i])
    ensures n < |s| ==> !IsTrimmable(s[|s| - 1 - n])
  {
    if s == [] || !IsTrimmable(s[|s| - 1]) then 0
    else
      var init := s[..|s| - 1];
      var n := 1 + TrailingCount(init);
      assert forall i :: |s| - n <= i < |s| - 1 ==> s[i] == init[i];
      n
  }

  /**
    The trimmed string: what is left between the longest trimmable prefix and
    the longest trimmable suffix. It is empty exactly when every character of
    `s` is trimmable, and otherwise starts and ends with a kept character.
   */
  function Trim(s: string): (r: string)
    ensures |r| <= |s|
    ensures var a := LeadingCount(s);
            && a + |r| <= |s|
            && r == s[a..a + |r|]
            && forall i :: a + |r| <= i < |s| ==> IsTrimmable(s[i])
    ensures r == [] <==> forall i :: 0 <= i < |s| ==> IsTrimmable(s[i])
    ensures r != [] ==> !IsTrimmable(r[0]) && !IsTrimmable(r[|r| - 1])
  {
    var a := LeadingCount(s);
    var tail := s[a..];
    var r := tail[..|tail| - TrailingCount(tail)];
    assert forall i :: a + |r| <= i < |s| ==> s[i] == tail[i - a];
    r
  }
}

/** The little of JavaScript's value and string semantics that the page script relies on. */
module Js {

  /** A value that may be absent: `null`/`undefined` in JavaScript. */
  datatype Option<+T> = None | Some(value: T)

  /** `s.slice(1)`: the string without its first character; the empty string stays empty. */
  function Slice1(s: string): string
  {
    if |s| == 0 then "" else s[1..]
  }

  /**
   * The characters matched by `\s` in a regular expression and removed by `String.prototype.trim`:
   * ECMAScript's WhiteSpace (tab, vertical tab, form feed, the byte order mark and every
   * space separator of category Zs) and LineTerminator (LF, CR, LS, PS).
   */
  predicate IsWhiteSpace(c: char)
  {
    || c == '\t' || c == '\n' || c == '\U{B}' || c == '\U{C}' || c == '\r'
    || c == ' ' || c == '\U{A0}' || c == '\U{1680}'
    || ('\U{2000}' <= c <= '\U{200A}')
    || c == '\U{2028}' || c == '\U{2029}' || c == '\U{202F}' || c == '\U{205F}'
    || c == '\U{3000}' || c == '\U{FEFF}'
  }

  /** The string holds a character that is not white space. */
  predicate HasText(s: string)
  {
    exists i | 0 <= i < |s| :: !IsWhiteSpace(s[i])
  }

  /** How many white-space characters `s` starts with. */
  function LeadingWhiteSpace(s: string): (n: nat)
    ensures n <= |s|
    ensures forall i | 0 <= i < n :: IsWhiteSpace(s[i])
    ensures n < |s| ==> !IsWhiteSpace(s[n])
    decreases |s|
  {
    if s != [] && IsWhiteSpace(s[0]) then 1 + LeadingWhiteSpace(s[1..]) else 0
  }

  /** How many white-space characters `s` ends with. */
  function TrailingWhiteSpace(s: string): (n: nat)
    ensures n <= |s|
    ensures forall i | |s| - n <= i < |s| :: IsWhiteSpace(s[i])
    ensures n < |s| ==> !IsWhiteSpace(s[|s| - n - 1])
    decreases |s|
  {
    if s != [] && IsWhiteSpace(s[|s| - 1]) then 1 + TrailingWhiteSpace(s[..|s| - 1]) else 0
  }

  /** Leading white space removed: the result is the longest suffix that does not start with white space. */
  function TrimStart(s: string): (r: string)
    ensures |r| <= |s| && r == s[|s| - |r|..]
    ensures forall i | 0 <= i < |s| - |r| :: IsWhiteSpace(s[i])
    ensures r != [] ==> !IsWhiteSpace(r[0])
  {
    s[LeadingWhiteSpace(s)..]
  }

  /** Trailing white space removed: the result is the longest prefix that does not end with white space. */
  function TrimEnd(s: string): (r: string)
    ensures |r| <= |s| && r == s[..|r|]
    ensures forall i | |r| <= i < |s| :: IsWhiteSpace(s[i])
    ensures r != [] ==> !IsWhiteSpace(r[|r| - 1])
  {
    s[..|s| - TrailingWhiteSpace(s)]
  }

  /** `s.trim()`. */
  function Trim(s: string): string
  {
    TrimEnd(TrimStart(s))
  }

  /** `s.trim() === ''` exactly when every character of `s` is white space. */
  lemma TrimEmptyIff(s: string)
    ensures Trim(s) == "" <==> !HasText(s)
  {
    var t := TrimStart(s);
    if Trim(s) == "" {
      assert t == [];
    } else {
      var r := Trim(s);
      assert t[0] == r[0];
      assert s[|s| - |t|] == t[0];
    }
  }

  /** Trimming removes white space only at the ends: the result is a contiguous piece of the input. */
  lemma TrimIsInfix(s: string)
    ensures var k := |s| - |TrimStart(s)|; k + |Trim(s)| <= |s| && Trim(s) == s[k..k + |Trim(s)|]
  {
    var t := TrimStart(s);
    var k := |s| - |t|;
    assert t == s[k..];
    assert Trim(s) == t[..|Trim(s)|];
  }
}

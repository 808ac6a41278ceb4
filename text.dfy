/**
  The two JavaScript string built-ins whose results the model spells out:
  String.prototype.trim (used on the model's completion text) and
  Array.prototype.join (used to glue the per-file summary blocks).
 */
module Text {

  /** ECMAScript WhiteSpace or LineTerminator code point: exactly what
      String.prototype.trim strips (ECMAScript Language Specification,
      sections 12.2 "White Space" and 12.3 "Line Terminators"; the Zs
      category as of Unicode 15). */
  predicate IsWhiteSpace(c: char) {
    || c == '\t' || c == '\n' || c == '\U{B}' || c == '\U{C}' || c == '\r'
    || c == ' ' || c == '\U{A0}' || c == '\U{1680}'
    || ('\U{2000}' <= c <= '\U{200A}')
    || c == '\U{2028}' || c == '\U{2029}' || c == '\U{202F}' || c == '\U{205F}'
    || c == '\U{3000}' || c == '\U{FEFF}'
  }

  /** Where the set ends: the space, the byte-order mark and the line
      separators are stripped, but the zero-width space (format category Cf
      since Unicode 4.0.1) and NEXT LINE (a control character, not a line
      terminator in ECMAScript) are not. */
  lemma WhiteSpaceBoundary()
    ensures IsWhiteSpace(' ') && IsWhiteSpace('\n') && IsWhiteSpace('\U{FEFF}') && IsWhiteSpace('\U{2028}')
    ensures !IsWhiteSpace('\U{200B}') && !IsWhiteSpace('\U{85}') && !IsWhiteSpace('\U{180E}')
  {
  }

  /** True when s neither starts nor ends with white space. */
  predicate IsTrimmed(s: string) {
    s == [] || (!IsWhiteSpace(s[0]) && !IsWhiteSpace(s[|s| - 1]))
  }

  /** The number of white-space characters at the start of s. */
  function LeadingWhite(s: string): (n: nat)
    ensures n <= |s|
    ensures forall k :: 0 <= k < n ==> IsWhiteSpace(s[k])
    ensures n == |s| || !IsWhiteSpace(s[n])
  {
    if s != [] && IsWhiteSpace(s[0]) then 1 + LeadingWhite(s[1..]) else 0
  }

  /** The number of white-space characters at the end of s. */
  function TrailingWhite(s: string): (n: nat)
    ensures n <= |s|
    ensures forall k :: |s| - n <= k < |s| ==> IsWhiteSpace(s[k])
    ensures n == |s| || !IsWhiteSpace(s[|s| - n - 1])
  {
    if s != [] && IsWhiteSpace(s[|s| - 1]) then 1 + TrailingWhite(s[..|s| - 1]) else 0
  }

  /** String.prototype.trim: s without its leading and trailing white space.
      The result is the slice of s that starts after the leading white
      space, every character of s outside that slice is white space, and
      the slice neither starts nor ends with white space. */
  function Trim(s: string): (r: string)
    ensures LeadingWhite(s) + |r| <= |s|
    ensures IsTrimmed(r)
    ensures r == s[LeadingWhite(s)..LeadingWhite(s) + |r|]
    ensures forall k :: 0 <= k < LeadingWhite(s) ==> IsWhiteSpace(s[k])
    ensures forall k :: LeadingWhite(s) + |r| <= k < |s| ==> IsWhiteSpace(s[k])
  {
    var rest := s[LeadingWhite(s)..];
    var r := rest[..|rest| - TrailingWhite(rest)];
    assert r != [] ==> r[0] == rest[0];
    r
  }

  /** A string that neither starts nor ends with white space is its own trim. */
  lemma TrimOfTrimmed(s: string)
    requires IsTrimmed(s)
    ensures Trim(s) == s
  {
  }

  /** Trimming twice is trimming once. */
  lemma TrimIdempotent(s: string)
    ensures Trim(Trim(s)) == Trim(s)
  {
  }

  /** A string trims to the empty string exactly when it is white space alone. */
  lemma TrimEmptyIff(s: string)
    ensures Trim(s) == [] <==> forall k :: 0 <= k < |s| ==> IsWhiteSpace(s[k])
  {
  }

  /** Array.prototype.join: the parts separated by sep; [] joins to "". */
  function Join(parts: seq<string>, sep: string): (r: string)
    ensures parts == [] ==> r == []
    ensures |parts| == 1 ==> r == parts[0]
    ensures parts != [] ==> |parts[0]| <= |r| && r[..|parts[0]|] == parts[0]
  {
    if parts == [] then []
    else if |parts| == 1 then parts[0]
    else parts[0] + sep + Join(parts[1..], sep)
  }

  /** Joining two non-empty lists is joining their joins with one more separator. */
  lemma {:induction false} JoinAppend(a: seq<string>, b: seq<string>, sep: string)
    requires a != [] && b != []
    ensures Join(a + b, sep) == Join(a, sep) + sep + Join(b, sep)
  {
    if |a| == 1 {
      assert (a + b)[1..] == b;
    } else {
      assert (a + b)[1..] == a[1..] + b;
      JoinAppend(a[1..], b, sep);
    }
  }
}

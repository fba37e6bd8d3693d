/** The few pieces of Java string semantics the device rules depend on:
    `String.isBlank`, `String.trim`, and `String.length` (which counts
    UTF-16 code units, not characters). A Dafny `string` is a sequence of
    Unicode scalar values. */
module JavaText {

  /** `Character.isWhitespace`: the Unicode space, line and paragraph
      separators except the three non-breaking spaces (U+00A0, U+2007,
      U+202F), plus the ASCII controls TAB, LF, VT, FF, CR and FS..US. */
  predicate IsWhitespace(c: char) {
    || ('\t' <= c <= '\r')
    || ('\U{1C}' <= c <= ' ')
    || c == '\U{1680}'
    || ('\U{2000}' <= c <= '\U{2006}')
    || ('\U{2008}' <= c <= '\U{200A}')
    || c == '\U{2028}' || c == '\U{2029}'
    || c == '\U{205F}' || c == '\U{3000}'
  }

  /** `String.isBlank`: empty, or whitespace throughout. */
  predicate IsBlank(s: string) {
    forall i :: 0 <= i < |s| ==> IsWhitespace(s[i])
  }

  /** The characters `String.trim` strips: every code unit at or below U+0020. */
  predicate IsTrimmable(c: char) {
    c <= ' '
  }

  /** `String.trim`: drops the leading and trailing characters at or below
      U+0020. What is left is the slice between the first and the last kept
      character, or nothing when the input holds no kept character. */
  function Trim(s: string): (r: string)
    ensures |r| <= |s| - LeadingTrimmable(s)
    ensures r == s[LeadingTrimmable(s)..LeadingTrimmable(s) + |r|]
    ensures forall k :: LeadingTrimmable(s) + |r| <= k < |s| ==> IsTrimmable(s[k])
    ensures |r| > 0 ==> !IsTrimmable(r[0]) && !IsTrimmable(r[|r| - 1])
    ensures |r| == 0 <==> forall k :: 0 <= k < |s| ==> IsTrimmable(s[k])
  {
    var i := LeadingTrimmable(s);
    var j := TrailingTrimmableStart(s);
    if j <= i then "" else s[i..j]
  }

  /** How many trimmable characters `s` starts with. */
  function LeadingTrimmable(s: string): (i: nat)
    ensures i <= |s|
    ensures forall k :: 0 <= k < i ==> IsTrimmable(s[k])
    ensures i < |s| ==> !IsTrimmable(s[i])
  {
    if |s| > 0 && IsTrimmable(s[0]) then
      assert forall k :: 1 <= k < |s| ==> s[k] == s[1..][k - 1];
      1 + LeadingTrimmable(s[1..])
    else 0
  }

  /** Where the run of trimmable characters that `s` ends with begins. */
  function TrailingTrimmableStart(s: string): (j: nat)
    ensures j <= |s|
    ensures forall k :: j <= k < |s| ==> IsTrimmable(s[k])
    ensures j > 0 ==> !IsTrimmable(s[j - 1])
  {
    if |s| > 0 && IsTrimmable(s[|s| - 1]) then
      assert forall k :: 0 <= k < |s| - 1 ==> s[k] == s[..|s| - 1][k];
      TrailingTrimmableStart(s[..|s| - 1])
    else |s|
  }

  /** Bean validation's `@NotBlank` on a string: after `trim()` something
      is left, that is, some character is above U+0020. */
  predicate NotBlank(s: string) {
    exists i :: 0 <= i < |s| && !IsTrimmable(s[i])
  }

  /** `NotBlank` is the trim-based check. */
  lemma NotBlankIffTrimNonEmpty(s: string)
    ensures NotBlank(s) <==> |Trim(s)| > 0
  {
  }

  /** `String.length`: characters outside the Basic Multilingual Plane take
      two UTF-16 code units (a surrogate pair), all others one. */
  function Utf16Length(s: string): (n: nat)
    ensures |s| <= n <= 2 * |s|
    ensures n == |s| <==> forall i :: 0 <= i < |s| ==> s[i] as int <= 0xFFFF
  {
    if |s| == 0 then 0
    else
      var rest := Utf16Length(s[1..]);
      assert forall i :: 1 <= i < |s| ==> s[i] == s[1..][i - 1];
      (if s[0] as int <= 0xFFFF then 1 else 2) + rest
  }

  /** One character takes one code unit inside the Basic Multilingual
      Plane and two outside it. */
  lemma Utf16LengthOfChar(c: char)
    ensures c as int <= 0xFFFF ==> Utf16Length([c]) == 1
    ensures c as int > 0xFFFF ==> Utf16Length([c]) == 2
  {
  }

  /** The code-unit length of a concatenation is the sum of the parts', so
      together with `Utf16LengthOfChar` it fixes the length of any string. */
  lemma {:induction false} Utf16LengthConcat(a: string, b: string)
    ensures Utf16Length(a + b) == Utf16Length(a) + Utf16Length(b)
    decreases |a|
  {
    if |a| == 0 {
      assert a + b == b;
    } else {
      assert (a + b)[1..] == a[1..] + b;
      Utf16LengthConcat(a[1..], b);
    }
  }
}

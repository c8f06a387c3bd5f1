/**
 * String helpers shared by the front end and the back end.
 *
 * Java's String.toLowerCase and String.equalsIgnoreCase depend on Unicode
 * tables and the default locale; they are modelled here as ASCII case
 * folding. The whitespace classes are written out by code point.
 */
module Text {

  predicate IsUpper(c: char) { 'A' <= c <= 'Z' }

  /** Lower-cases one ASCII letter and leaves every other character alone. */
  function LowerChar(c: char): (d: char)
    ensures !IsUpper(d)
    ensures IsUpper(c) ==> d as int == c as int + 32
    ensures !IsUpper(c) ==> d == c
  {
    if IsUpper(c) then (c as int + 32) as char else c
  }

  const UpperLetters: string := "ABCDEFGHIJKLMNOPQRSTUVWXYZ"
  const LowerLetters: string := "abcdefghijklmnopqrstuvwxyz"

  /** Folding maps the k-th capital of the alphabet to the k-th small letter and fixes every other character. */
  lemma LowerCharAlphabet(c: char)
    ensures forall k :: 0 <= k < |UpperLetters| && c == UpperLetters[k] ==> LowerChar(c) == LowerLetters[k]
    ensures c !in UpperLetters ==> LowerChar(c) == c
  {
    if IsUpper(c) {
      var k := c as int - 'A' as int;
      assert UpperLetters[k] == c;
    }
  }

  /** String.toLowerCase, one character at a time. */
  function ToLower(s: string): (r: string)
    ensures |r| == |s|
    ensures forall i :: 0 <= i < |s| ==> r[i] == LowerChar(s[i])
    ensures forall i :: 0 <= i < |r| ==> !IsUpper(r[i])
  {
    if s == [] then [] else [LowerChar(s[0])] + ToLower(s[1..])
  }

  /** String.equalsIgnoreCase: same length, and each pair of characters agrees after folding. */
  predicate EqualsIgnoreCase(a: string, b: string)
  {
    if a == [] || b == [] then a == b
    else LowerChar(a[0]) == LowerChar(b[0]) && EqualsIgnoreCase(a[1..], b[1..])
  }

  /** Case-insensitive equality is equality of the lower-cased forms. */
  lemma {:induction false} EqualsIgnoreCaseIsLowerEquality(a: string, b: string)
    ensures EqualsIgnoreCase(a, b) <==> ToLower(a) == ToLower(b)
  {
    if a != [] && b != [] {
      EqualsIgnoreCaseIsLowerEquality(a[1..], b[1..]);
      assert ToLower(a) == [LowerChar(a[0])] + ToLower(a[1..]);
      assert ToLower(b) == [LowerChar(b[0])] + ToLower(b[1..]);
      if ToLower(a) == ToLower(b) {
        assert ToLower(a)[1..] == ToLower(a[1..]);
        assert ToLower(b)[1..] == ToLower(b[1..]);
      }
    }
  }

  /** Lower-casing is idempotent. */
  lemma {:induction false} ToLowerIdempotent(s: string)
    ensures ToLower(ToLower(s)) == ToLower(s)
  {
    if s != [] {
      ToLowerIdempotent(s[1..]);
      assert ToLower(s)[1..] == ToLower(s[1..]);
    }
  }

  /**
   * Drops the leading characters that `strip` selects: the first half of a
   * trim, and all of it when the result is empty.
   */
  function TrimStart(s: string, strip: char -> bool): (r: string)
    ensures |r| <= |s| && r == s[|s| - |r|..]
    ensures forall i :: 0 <= i < |s| - |r| ==> strip(s[i])
    ensures r != [] ==> !strip(r[0])
  {
    if s != [] && strip(s[0]) then TrimStart(s[1..], strip) else s
  }

  /** A string trims to nothing exactly when every character is one the trim strips. */
  lemma {:induction false} TrimStartEmptyIffAllStripped(s: string, strip: char -> bool)
    ensures TrimStart(s, strip) == [] <==> forall i :: 0 <= i < |s| ==> strip(s[i])
  {
    var r := TrimStart(s, strip);
    if r != [] {
      assert s[|s| - |r|] == r[0];
    }
  }

  /** Every character that JavaScript's String.prototype.trim strips (WhiteSpace and LineTerminator). */
  predicate IsJsWhitespace(c: char)
  {
    var n := c as int;
    (0x09 <= n <= 0x0D) || n == 0x20 || n == 0xA0 || n == 0x1680
    || (0x2000 <= n <= 0x200A) || n == 0x2028 || n == 0x2029 || n == 0x202F
    || n == 0x205F || n == 0x3000 || n == 0xFEFF
  }

  /** `!s.trim()` in JavaScript: the trimmed string is empty. */
  predicate TrimsToEmpty(s: string)
  {
    forall i :: 0 <= i < |s| ==> IsJsWhitespace(s[i])
  }

  /** Java's Character.isWhitespace (which, unlike trim, excludes the no-break spaces). */
  predicate IsJavaWhitespace(c: char)
  {
    var n := c as int;
    (0x09 <= n <= 0x0D) || (0x1C <= n <= 0x20) || n == 0x1680
    || (0x2000 <= n <= 0x2006) || (0x2008 <= n <= 0x200A)
    || n == 0x2028 || n == 0x2029 || n == 0x205F || n == 0x3000
  }

  /** A character Java's String.trim strips: every code point up to and including the space. */
  predicate IsJavaTrimmed(c: char) { c as int <= 0x20 }

  /** `s.trim().length() == 0` in Java. */
  predicate JavaTrimsToEmpty(s: string)
  {
    forall i :: 0 <= i < |s| ==> IsJavaTrimmed(s[i])
  }

  /** Java's String.isBlank. */
  predicate IsBlank(s: string)
  {
    forall i :: 0 <= i < |s| ==> IsJavaWhitespace(s[i])
  }

  /** The three blank tests are trims that leave nothing, each with its own set of stripped characters. */
  lemma BlankTestsAreEmptyTrims(s: string)
    ensures TrimsToEmpty(s) <==> TrimStart(s, IsJsWhitespace) == []
    ensures JavaTrimsToEmpty(s) <==> TrimStart(s, IsJavaTrimmed) == []
    ensures IsBlank(s) <==> TrimStart(s, IsJavaWhitespace) == []
  {
    TrimStartEmptyIffAllStripped(s, IsJsWhitespace);
    TrimStartEmptyIffAllStripped(s, IsJavaTrimmed);
    TrimStartEmptyIffAllStripped(s, IsJavaWhitespace);
  }
}

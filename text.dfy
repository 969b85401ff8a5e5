/** Character classes and string helpers shared by the rules: decimal digits, the
    hexadecimal digits of `std::isxdigit`, underscore removal and the leading digit run
    that the rules' regular expressions `[0-9]+` match. */
module Text {

  predicate IsDecimalDigit(c: char) {
    '0' <= c <= '9'
  }

  /** `std::isxdigit` in the "C" locale. */
  predicate IsHexDigit(c: char) {
    '0' <= c <= '9' || 'a' <= c <= 'f' || 'A' <= c <= 'F'
  }

  /** The characters that `.` does not match when an ECMAScript `std::regex` runs over the
      bytes of a `std::string`. */
  predicate IsLineTerminator(c: char) {
    c == '\n' || c == '\r'
  }

  /** The base letters of a SystemVerilog based literal, in either case. */
  predicate IsBaseChar(c: char) {
    c in "bBoOdDhH"
  }

  predicate AllDecimalDigits(s: string) {
    forall i :: 0 <= i < |s| ==> IsDecimalDigit(s[i])
  }

  /** The value of a hexadecimal digit character; 0 for any other character. */
  function DigitValue(c: char): (v: nat)
    ensures IsHexDigit(c) ==> v < 16
    ensures IsDecimalDigit(c) ==> v < 10
  {
    if '0' <= c <= '9' then c as int - '0' as int
    else if 'a' <= c <= 'f' then c as int - 'a' as int + 10
    else if 'A' <= c <= 'F' then c as int - 'A' as int + 10
    else 0
  }

  /** `s` with every `_` removed (the `std::remove` / `regex_replace("_", "")` idiom of
      the source). */
  function StripUnderscores(s: string): (r: string)
    ensures |r| <= |s|
    ensures forall i :: 0 <= i < |r| ==> r[i] != '_'
    ensures forall c :: c != '_' ==> (c in r <==> c in s)
  {
    if s == [] then []
    else if s[0] == '_' then StripUnderscores(s[1..])
    else [s[0]] + StripUnderscores(s[1..])
  }

  lemma {:induction false} StripAppend(a: string, b: string)
    ensures StripUnderscores(a + b) == StripUnderscores(a) + StripUnderscores(b)
  {
    if a == [] {
      assert a + b == b;
    } else {
      assert (a + b)[1..] == a[1..] + b;
      StripAppend(a[1..], b);
    }
  }

  /** Removing underscores from a string that has none changes nothing. */
  lemma {:induction false} StripClean(s: string)
    requires forall i :: 0 <= i < |s| ==> s[i] != '_'
    ensures StripUnderscores(s) == s
  {
    if s != [] {
      StripClean(s[1..]);
    }
  }

  /** The length of the longest prefix of `s` made of decimal digits. */
  function DigitRun(s: string): (k: nat)
    ensures k <= |s|
    ensures AllDecimalDigits(s[..k])
    ensures k < |s| ==> !IsDecimalDigit(s[k])
  {
    if s == [] || !IsDecimalDigit(s[0]) then 0
    else
      var k := 1 + DigitRun(s[1..]);
      assert s[..k] == [s[0]] + s[1..][..k - 1];
      k
  }

  /** The value of a run of decimal digits, most significant digit first. */
  function DecimalValue(s: string): nat {
    if s == [] then 0 else DecimalValue(s[..|s| - 1]) * 10 + DigitValue(s[|s| - 1])
  }

  /** A run of digits followed by a non-digit is exactly the digit run of the
      concatenation. */
  lemma {:induction false} DigitRunOfConcat(w: string, x: string)
    requires AllDecimalDigits(w)
    requires x == [] || !IsDecimalDigit(x[0])
    ensures DigitRun(w + x) == |w|
  {
    if w == [] {
      assert w + x == x;
    } else {
      assert (w + x)[1..] == w[1..] + x;
      DigitRunOfConcat(w[1..], x);
    }
  }
}

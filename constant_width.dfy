/** The ConstantWidthCheck rule: a sized literal `<w>'<base><digits>` must have a value
    that fits in `w` bits. The literal's text is an input; the AST visitor that finds the
    integer literals and the diagnostic engine are not part of this model. */
module ConstantWidth {
  import opened Wrappers
  import opened Seqs
  import opened Text

  /** `UINT64_MAX`, also the parser's error sentinel. */
  const UINT64_MAX: nat := 0xFFFF_FFFF_FFFF_FFFF

  /** The base letters that `isValidForBase` and `parseValueByBase` dispatch on. */
  predicate IsBaseLetter(base: char) {
    base == 'b' || base == 'o' || base == 'd' || base == 'h'
  }

  /** The radix that `parseValueByBase` assigns to a base letter. */
  function BaseValue(base: char): (b: nat)
    requires IsBaseLetter(base)
    ensures b in {2, 8, 10, 16}
  {
    if base == 'b' then 2 else if base == 'o' then 8 else if base == 'd' then 10 else 16
  }

  /** Whether the `switch` of `isValidForBase` accepts digit `c` for `base`; an unknown
      base accepts nothing. */
  predicate IsDigitFor(c: char, base: char) {
    if base == 'b' then c == '0' || c == '1'
    else if base == 'o' then '0' <= c <= '7'
    else if base == 'd' then '0' <= c <= '9'
    else if base == 'h' then IsHexDigit(c)
    else false
  }

  /** What `isValidForBase` decides: a non-empty string whose every character is an
      underscore or a digit of the base. */
  predicate ValidForBase(s: string, base: char) {
    |s| > 0 && forall i :: 0 <= i < |s| ==> s[i] == '_' || IsDigitFor(s[i], base)
  }

  /** The mathematical value of a digit string in radix `b`, most significant digit first. */
  function ValueOf(s: string, b: nat): nat {
    if s == [] then 0 else ValueOf(s[..|s| - 1], b) * b + DigitValue(s[|s| - 1])
  }

  /** The result `parseValueByBase` promises: the radix value of the digits once the
      underscores are removed, or the `UINT64_MAX` sentinel when the text is invalid for the
      base, holds only underscores, or denotes a value beyond 64 bits. */
  function ParseResult(valueStr: string, base: char): nat {
    if !ValidForBase(valueStr, base) then UINT64_MAX
    else
      var clean := StripUnderscores(valueStr);
      if clean == [] || !IsBaseLetter(base) then UINT64_MAX
      else
        var v := ValueOf(clean, BaseValue(base));
        if v <= UINT64_MAX then v else UINT64_MAX
  }

  /** `isValidForBase`: the character loop with its early returns. */
  method IsValidForBase(valueStr: string, base: char) returns (ok: bool)
    ensures ok == ValidForBase(valueStr, base)
  {
    if |valueStr| == 0 {
      return false;
    }
    for i := 0 to |valueStr|
      invariant forall j :: 0 <= j < i ==> valueStr[j] == '_' || IsDigitFor(valueStr[j], base)
    {
      var c := valueStr[i];
      if c == '_' {
        continue;
      }
      if base == 'b' {
        if c != '0' && c != '1' {
          return false;
        }
      } else if base == 'o' {
        if c < '0' || c > '7' {
          return false;
        }
      } else if base == 'd' {
        if c < '0' || c > '9' {
          return false;
        }
      } else if base == 'h' {
        if !IsHexDigit(c) {
          return false;
        }
      } else {
        return false;
      }
    }
    return true;
  }

  /** `parseValueByBase`: validation, underscore removal, then digit-by-digit accumulation
      that gives up with the sentinel as soon as the next step would pass `UINT64_MAX`. */
  method ParseValueByBase(valueStr: string, base: char) returns (r: nat)
    ensures r <= UINT64_MAX
    ensures r == ParseResult(valueStr, base)
  {
    var valid := IsValidForBase(valueStr, base);
    if !valid {
      return UINT64_MAX;
    }
    var cleanValue := StripUnderscores(valueStr);
    if |cleanValue| == 0 {
      return UINT64_MAX;
    }
    var baseValue: nat;
    if base == 'b' {
      baseValue := 2;
    } else if base == 'o' {
      baseValue := 8;
    } else if base == 'd' {
      baseValue := 10;
    } else if base == 'h' {
      baseValue := 16;
    } else {
      return UINT64_MAX;
    }
    CleanDigitsValid(valueStr, base);
    var result: nat := 0;
    for i := 0 to |cleanValue|
      invariant result == ValueOf(cleanValue[..i], baseValue)
      invariant result <= UINT64_MAX
    {
      var c := cleanValue[i];
      assert c in cleanValue;
      var digit: nat;
      if '0' <= c <= '9' {
        digit := c as int - '0' as int;
      } else if 'a' <= c <= 'f' {
        digit := c as int - 'a' as int + 10;
      } else if 'A' <= c <= 'F' {
        digit := c as int - 'A' as int + 10;
      } else {
        // the source returns the sentinel here; validation has ruled the case out
        assert false;
      }
      assert digit == DigitValue(c);
      if digit >= baseValue {
        // the source returns the sentinel here; validation has ruled the case out
        assert false;
      }
      var guard := result > (UINT64_MAX - digit) / baseValue;
      AccumulateStep(cleanValue, i, baseValue, result, guard);
      if guard {
        return UINT64_MAX;
      }
      result := result * baseValue + digit;
    }
    assert cleanValue[..|cleanValue|] == cleanValue;
    return result;
  }

  /** One step of the accumulation loop: when the guard fires, the whole string's value is
      beyond `UINT64_MAX`; otherwise the next prefix's value fits. */
  lemma AccumulateStep(s: string, i: nat, b: nat, result: nat, guard: bool)
    requires i < |s| && 0 < b && DigitValue(s[i]) < b && b <= 16
    requires result == ValueOf(s[..i], b)
    requires guard == (result > (UINT64_MAX - DigitValue(s[i])) / b)
    ensures guard ==> ValueOf(s, b) > UINT64_MAX
    ensures !guard ==> result * b + DigitValue(s[i]) == ValueOf(s[..i + 1], b) <= UINT64_MAX
  {
    assert s[..i + 1][..i] == s[..i];
    OverflowGuardExact(result, DigitValue(s[i]), b, UINT64_MAX);
    if guard {
      PrefixValueAtMost(s, i + 1, b);
    }
  }

  /** Every character left after validation and underscore removal is a digit of the base
      whose value is below the radix. */
  lemma CleanDigitsValid(valueStr: string, base: char)
    requires ValidForBase(valueStr, base) && IsBaseLetter(base)
    ensures forall c :: c in StripUnderscores(valueStr) ==>
              IsHexDigit(c) && DigitValue(c) < BaseValue(base)
  {
    forall c | c in StripUnderscores(valueStr)
      ensures IsHexDigit(c) && DigitValue(c) < BaseValue(base)
    {
      var i :| 0 <= i < |valueStr| && valueStr[i] == c;
      DigitForValue(c, base);
    }
  }

  /** The validation `switch` and the parse's digit test agree: a character is a digit of
      the base iff it is a hexadecimal digit whose value is below the radix. */
  lemma DigitForValue(c: char, base: char)
    requires IsBaseLetter(base)
    ensures IsDigitFor(c, base) <==> IsHexDigit(c) && DigitValue(c) < BaseValue(base)
  {
  }

  /** The overflow guard `result > (UINT64_MAX - digit) / baseValue` holds exactly when
      `result * baseValue + digit` would exceed the maximum. */
  lemma OverflowGuardExact(result: nat, digit: nat, b: nat, max: nat)
    requires 0 < b && digit <= max
    ensures result > (max - digit) / b <==> result * b + digit > max
  {
    var q, m := (max - digit) / b, (max - digit) % b;
    assert max - digit == q * b + m && m < b;
    if result > q {
      MulMonotone(q + 1, result, b);
      assert result * b >= q * b + b;
    } else {
      MulMonotone(result, q, b);
    }
  }

  lemma MulMonotone(x: nat, y: nat, b: nat)
    requires x <= y
    ensures x * b <= y * b
  {
  }

  /** The value of a prefix never exceeds the value of the whole digit string. */
  lemma {:induction false} PrefixValueAtMost(s: string, k: nat, b: nat)
    requires k <= |s| && 0 < b
    ensures ValueOf(s[..k], b) <= ValueOf(s, b)
  {
    if k < |s| {
      var t := s[..|s| - 1];
      assert s[..k] == t[..k];
      PrefixValueAtMost(t, k, b);
      MulMonotone(1, b, ValueOf(t, b));
    } else {
      assert s[..k] == s;
    }
  }

  // ---------------------------------------------------------------------------------
  // The visitor's handler for one integer literal

  /** The groups of the sized-literal pattern `^([0-9]+)'([bBoOdDhH])(.+)$`. */
  datatype SizedLiteral = SizedLiteral(width: nat, base: char, digits: string)

  predicate NoLineTerminator(s: string) {
    forall i :: 0 <= i < |s| ==> !IsLineTerminator(s[i])
  }

  /** `std::regex_match` against the sized pattern, with `std::stoi` of the width group. */
  function MatchSized(text: string): (m: Option<SizedLiteral>)
  {
    var k := DigitRun(text);
    if 0 < k && k + 2 < |text| && text[k] == '\'' && IsBaseChar(text[k + 1])
       && NoLineTerminator(text[k + 2..])
    then Some(SizedLiteral(DecimalValue(text[..k]), text[k + 1], text[k + 2..]))
    else None
  }

  /** `std::tolower` on a character. */
  function ToLower(c: char): char {
    if 'A' <= c <= 'Z' then (c as int + 32) as char else c
  }

  function Pow2(n: nat): (p: nat)
    ensures p > 0
  {
    if n == 0 then 1 else 2 * Pow2(n - 1)
  }

  /** The width diagnostic with the four values its message names. */
  datatype WidthDiagnostic = WidthDiagnostic(value: nat, text: string, width: nat, maxValue: nat)

  /** What `handle(IntegerLiteral)` reports for a literal whose text is `text`. */
  function WidthDiagnosticOf(text: string): Option<WidthDiagnostic> {
    match MatchSized(text)
    case None => None
    case Some(m) =>
      if m.width >= 64 || m.width <= 0 then None
      else
        var v := ParseResult(m.digits, ToLower(m.base));
        if v == UINT64_MAX then None
        else
          var maxVal := Pow2(m.width) - 1;
          if v > maxVal then Some(WidthDiagnostic(v, text, m.width, maxVal)) else None
  }

  /** `MainVisitor::handle(IntegerLiteral)`: match, width guard, parse, compare. */
  method HandleLiteral(text: string) returns (d: Option<WidthDiagnostic>)
    ensures d == WidthDiagnosticOf(text)
  {
    var matched := MatchSized(text);
    if matched.None? {
      return None;
    }
    var declaredWidth := matched.value.width;
    var base := ToLower(matched.value.base);
    var valueStr := matched.value.digits;
    if declaredWidth >= 64 || declaredWidth <= 0 {
      return None;
    }
    var originalValue := ParseValueByBase(valueStr, base);
    if originalValue == UINT64_MAX {
      return None;
    }
    var maxVal := Pow2(declaredWidth) - 1;
    if originalValue > maxVal {
      return Some(WidthDiagnostic(originalValue, text, declaredWidth, maxVal));
    }
    return None;
  }

  /** The rule's findings for the literals the visitor meets, in visit order; the check
      passes iff there are none. */
  function CheckDiagnostics(literals: seq<string>): (ds: seq<WidthDiagnostic>)
    ensures |ds| <= |literals|
  {
    if literals == [] then []
    else
      var rest := CheckDiagnostics(literals[1..]);
      match WidthDiagnosticOf(literals[0])
      case None => rest
      case Some(d) => [d] + rest
  }

  // ---------------------------------------------------------------------------------
  // Properties

  /** `isValidForBase` rejects the empty string; with an unknown base it accepts exactly
      the non-empty strings made only of underscores, because its `switch` is reached only
      for a non-underscore character. */
  lemma ValidationEdgeCases(s: string, base: char)
    ensures !ValidForBase([], base)
    ensures !IsBaseLetter(base) ==>
              (ValidForBase(s, base) <==> |s| > 0 && forall i :: 0 <= i < |s| ==> s[i] == '_')
  {
  }

  /** The parser returns the sentinel exactly when validation fails, when only underscores
      remain, or when the true value is `UINT64_MAX` or more; otherwise it returns the true
      value. A true value of `UINT64_MAX` therefore cannot be told from an error. */
  lemma ParseResultExactly(s: string, base: char)
    ensures !IsBaseLetter(base) ==> ParseResult(s, base) == UINT64_MAX
    ensures IsBaseLetter(base) ==>
              var clean := StripUnderscores(s);
              var v := ValueOf(clean, BaseValue(base));
              && (ParseResult(s, base) == UINT64_MAX <==>
                    !ValidForBase(s, base) || clean == [] || v >= UINT64_MAX)
              && (ValidForBase(s, base) && clean != [] && v <= UINT64_MAX ==>
                    ParseResult(s, base) == v)
  {
    if !IsBaseLetter(base) && ValidForBase(s, base) {
      UnderscoresOnlyStripToEmpty(s);
    }
  }

  lemma {:induction false} UnderscoresOnlyStripToEmpty(s: string)
    requires forall i :: 0 <= i < |s| ==> s[i] == '_' || IsDigitFor(s[i], 'x')
    ensures StripUnderscores(s) == []
  {
    if s != [] {
      UnderscoresOnlyStripToEmpty(s[1..]);
    }
  }

  /** The sized pattern matches exactly the texts `<digits>'<base letter><rest>` with a
      non-empty width, one of the eight base letters and a non-empty single-line rest. */
  lemma MatchSizedExactly(widthText: string, base: char, rest: string)
    requires |widthText| > 0 && AllDecimalDigits(widthText)
    requires IsBaseChar(base) && |rest| > 0 && NoLineTerminator(rest)
    ensures MatchSized(widthText + "'" + [base] + rest)
            == Some(SizedLiteral(DecimalValue(widthText), base, rest))
  {
    var text := widthText + "'" + [base] + rest;
    var tail := "'" + [base] + rest;
    var k := |widthText|;
    ConcatAssoc(widthText, "'", [base]);
    ConcatAssoc(widthText, "'" + [base], rest);
    assert text == widthText + tail;
    assert tail[0] == '\'' && tail[1] == base && tail[2..] == rest;
    DigitRunOfConcat(widthText, tail);
    assert text[..k] == widthText;
    assert text[k..] == tail;
  }

  lemma MatchSizedShape(text: string)
    requires MatchSized(text).Some?
    ensures var m := MatchSized(text).value;
            var k := DigitRun(text);
            && text == text[..k] + "'" + [m.base] + m.digits
            && 0 < k && IsBaseChar(m.base) && |m.digits| > 0 && m.width == DecimalValue(text[..k])
  {
    var k := DigitRun(text);
    assert text == text[..k] + [text[k]] + [text[k + 1]] + text[k + 2..];
  }

  lemma {:induction false} Pow2Monotone(m: nat, n: nat)
    requires m <= n
    ensures Pow2(m) <= Pow2(n)
  {
    if m < n {
      Pow2Monotone(m, n - 1);
    }
  }

  /** Every width the rule checks has a maximum below the sentinel. */
  lemma MaxBelowSentinel(w: nat)
    requires w <= 63
    ensures Pow2(w) - 1 < UINT64_MAX
  {
    Pow2Monotone(w, 63);
    Pow2Top();
  }

  lemma Pow2Byte()
    ensures Pow2(8) == 256
  {
  }

  lemma Pow2Half()
    ensures Pow2(16) == 0x1_0000
  {
    Pow2Byte();
    Pow2Sum(8, 8);
  }

  lemma Pow2Word()
    ensures Pow2(32) == 0x1_0000_0000
  {
    Pow2Half();
    Pow2Sum(16, 16);
  }

  lemma Pow2Top()
    ensures Pow2(63) == 0x8000_0000_0000_0000
  {
    Pow2Word();
    assert Pow2(32) == 2 * Pow2(31);
    Pow2Sum(31, 32);
  }

  lemma {:induction false} Pow2Sum(a: nat, b: nat)
    ensures Pow2(a + b) == Pow2(a) * Pow2(b)
  {
    if a > 0 {
      Pow2Sum(a - 1, b);
    }
  }

  /** For a sized literal of width 1 to 63 the rule reports exactly when the digits are
      valid for the base and their true value exceeds `2^w - 1` but stays below
      `UINT64_MAX`. */
  lemma FlagsExactly(widthText: string, base: char, rest: string)
    requires |widthText| > 0 && AllDecimalDigits(widthText)
    requires 1 <= DecimalValue(widthText) <= 63
    requires IsBaseChar(base) && |rest| > 0 && NoLineTerminator(rest)
    ensures IsBaseLetter(ToLower(base))
    ensures var w := DecimalValue(widthText);
            var b := ToLower(base);
            var clean := StripUnderscores(rest);
            var v := ValueOf(clean, BaseValue(b));
            var d := WidthDiagnosticOf(widthText + "'" + [base] + rest);
            && (d.Some? <==> ValidForBase(rest, b) && clean != [] && Pow2(w) - 1 < v < UINT64_MAX)
            && (d.Some? ==> d.value.value == v && d.value.width == w
                            && d.value.maxValue == Pow2(w) - 1)
  {
    MatchSizedExactly(widthText, base, rest);
    ParseResultExactly(rest, ToLower(base));
  }

  /** Widths of 64 or more, and width 0, are never checked. */
  lemma UncheckedWidths(widthText: string, base: char, rest: string)
    requires |widthText| > 0 && AllDecimalDigits(widthText)
    requires DecimalValue(widthText) >= 64 || DecimalValue(widthText) == 0
    requires IsBaseChar(base) && |rest| > 0 && NoLineTerminator(rest)
    ensures WidthDiagnosticOf(widthText + "'" + [base] + rest) == None
  {
    MatchSizedExactly(widthText, base, rest);
  }

  /** A literal whose digits do not parse (invalid for the base, only underscores, or a
      value of `UINT64_MAX` or more) is skipped silently, although such a value overflows
      every checked width. */
  lemma ParseFailureSkipped(text: string)
    requires MatchSized(text).Some?
    requires var m := MatchSized(text).value;
             ParseResult(m.digits, ToLower(m.base)) == UINT64_MAX
    ensures WidthDiagnosticOf(text) == None
  {
  }

  /** The base letter is read case-insensitively: both spellings are reported alike, with
      the same value, width and maximum. */
  lemma BaseCaseInsensitive(widthText: string, base: char, rest: string)
    requires |widthText| > 0 && AllDecimalDigits(widthText)
    requires base in "bodh" && |rest| > 0 && NoLineTerminator(rest)
    ensures var upper := (base as int - 32) as char;
            var lo := WidthDiagnosticOf(widthText + "'" + [base] + rest);
            var up := WidthDiagnosticOf(widthText + "'" + [upper] + rest);
            && lo.Some? == up.Some?
            && (lo.Some? ==> lo.value.value == up.value.value && lo.value.width == up.value.width
                             && lo.value.maxValue == up.value.maxValue)
  {
    var upper := (base as int - 32) as char;
    assert upper in "BODH";
    MatchSizedExactly(widthText, base, rest);
    MatchSizedExactly(widthText, upper, rest);
  }

  /** `4'hF` fits its width. */
  lemma WidthExampleFits()
    ensures WidthDiagnosticOf("4'hF") == None
  {
    FlagsExactly("4", 'h', "F");
    assert "4'hF" == "4" + "'" + ['h'] + "F";
    assert StripUnderscores("F") == "F";
  }

  /** `4'h10` overflows its width, whose maximum is 15. */
  lemma WidthExampleOverflows()
    ensures WidthDiagnosticOf("4'h10") == Some(WidthDiagnostic(16, "4'h10", 4, 15))
  {
    HexTenMatches();
    HexTenParses();
    assert Pow2(4) == 16;
  }

  lemma HexTenMatches()
    ensures MatchSized("4'h10") == Some(SizedLiteral(4, 'h', "10"))
  {
    assert "4'h10" == "4" + "'" + ['h'] + "10";
    MatchSizedExactly("4", 'h', "10");
    assert DecimalValue("4") == 4;
  }

  lemma HexTenParses()
    ensures ParseResult("10", 'h') == 16
  {
    assert StripUnderscores("10") == "10";
    assert "10"[..1] == "1";
    assert ValueOf("10", 16) == 16;
  }

  /** The check passes iff no literal yields a diagnostic. */
  lemma {:induction false} CheckPassesIff(literals: seq<string>)
    ensures CheckDiagnostics(literals) == [] <==>
              forall i :: 0 <= i < |literals| ==> WidthDiagnosticOf(literals[i]).None?
  {
    if literals != [] {
      CheckPassesIff(literals[1..]);
      assert forall i :: 1 <= i < |literals| ==> literals[i] == literals[1..][i - 1];
    }
  }
}

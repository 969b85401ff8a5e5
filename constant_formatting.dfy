/** The ConstantFormatting rule: an integer literal must be sized unless it is 0 or 1, and a
    sized binary literal of more than four digits must group its digits by four with
    underscores, counted from the least significant digit. Literals in certain syntactic
    positions are exempt. A literal is given by its text and by the kinds of its ancestors,
    from its parent up to the root. */
module ConstantFormatting {
  import opened Wrappers
  import opened Seqs
  import opened Text
  import opened Syntax

  // ---------------------------------------------------------------------------------
  // Exemptions by position

  const ParameterKinds: set<SyntaxKind> :=
    {ParameterDeclarationStatement, ParameterDeclaration, ParameterPortList}
  const BitSelectKinds: set<SyntaxKind> :=
    {ElementSelectExpression, IdentifierSelectName, BitSelect}
  const RangeSelectKinds: set<SyntaxKind> :=
    {SimpleRangeSelect, AscendingRangeSelect, DescendingRangeSelect}
  const ArrayDimensionKinds: set<SyntaxKind> := {VariableDimension}
  const GenerateLoopKinds: set<SyntaxKind> := {ForLoopStatement, LoopGenerate}

  /** `isTimingDelay`: the parent or the grandparent is a delay control. */
  predicate IsTimingDelay(ancestors: seq<SyntaxKind>) {
    (|ancestors| > 0 && ancestors[0] == DelayControl)
    || (|ancestors| > 1 && ancestors[1] == DelayControl)
  }

  /** Some ancestor among the five nearest has one of the kinds. */
  predicate WithinFiveLevels(ancestors: seq<SyntaxKind>, kinds: set<SyntaxKind>) {
    exists i :: 0 <= i < |ancestors| && i < 5 && ancestors[i] in kinds
  }

  /** Some ancestor has one of the kinds, and no compilation unit comes before it. */
  predicate FoundBeforeCompilationUnit(ancestors: seq<SyntaxKind>, kinds: set<SyntaxKind>) {
    exists i :: 0 <= i < |ancestors| && ancestors[i] in kinds
                && CompilationUnit !in ancestors[..i + 1]
  }

  /** The six exemptions, in the order `handle` tests them. */
  predicate Exempt(ancestors: seq<SyntaxKind>) {
    || IsTimingDelay(ancestors)
    || WithinFiveLevels(ancestors, ParameterKinds)
    || FoundBeforeCompilationUnit(ancestors, BitSelectKinds)
    || FoundBeforeCompilationUnit(ancestors, RangeSelectKinds)
    || FoundBeforeCompilationUnit(ancestors, ArrayDimensionKinds)
    || FoundBeforeCompilationUnit(ancestors, GenerateLoopKinds)
  }

  /** `isParameterAssignment`: the walk up the parents that gives up after five steps. */
  method IsParameterAssignment(ancestors: seq<SyntaxKind>) returns (b: bool)
    ensures b == WithinFiveLevels(ancestors, ParameterKinds)
  {
    var depth := 0;
    while depth < |ancestors| && depth < 5
      invariant depth <= |ancestors| && depth <= 5
      invariant forall i :: 0 <= i < depth ==> ancestors[i] !in ParameterKinds
    {
      if ancestors[depth] in ParameterKinds {
        return true;
      }
      depth := depth + 1;
    }
    return false;
  }

  /** The walk up the parents shared by `isBitSelect`, `isRangeSelect`, `isArrayDimension`
      and `isGenerateLoopBound`, which differ only in the kinds they look for: it stops at
      the first compilation unit. */
  method IsInsideBeforeCompilationUnit(ancestors: seq<SyntaxKind>, kinds: set<SyntaxKind>)
    returns (b: bool)
    requires CompilationUnit !in kinds
    ensures b == FoundBeforeCompilationUnit(ancestors, kinds)
  {
    var i := 0;
    while i < |ancestors| && ancestors[i] != CompilationUnit
      invariant i <= |ancestors|
      invariant CompilationUnit !in ancestors[..i]
      invariant forall j :: 0 <= j < i ==> ancestors[j] !in kinds
    {
      if ancestors[i] in kinds {
        assert ancestors[..i + 1] == ancestors[..i] + [ancestors[i]];
        return true;
      }
      assert ancestors[..i + 1] == ancestors[..i] + [ancestors[i]];
      i := i + 1;
    }
    if i < |ancestors| {
      NotFoundPastCompilationUnit(ancestors, kinds, i);
    }
    return false;
  }

  lemma NotFoundPastCompilationUnit(ancestors: seq<SyntaxKind>, kinds: set<SyntaxKind>, i: nat)
    requires i < |ancestors| && ancestors[i] == CompilationUnit
    requires forall j :: 0 <= j < i ==> ancestors[j] !in kinds
    ensures !FoundBeforeCompilationUnit(ancestors, kinds)
  {
    forall j | 0 <= j < |ancestors| && ancestors[j] in kinds
      ensures CompilationUnit in ancestors[..j + 1]
    {
      assert ancestors[..j + 1][i] == ancestors[i];
    }
  }

  /** The sequence of exemption tests at the head of `handle(IntegerLiteral)`. */
  method IsExempt(ancestors: seq<SyntaxKind>) returns (b: bool)
    ensures b == Exempt(ancestors)
  {
    if IsTimingDelay(ancestors) {
      return true;
    }
    b := IsParameterAssignment(ancestors);
    if b {
      return;
    }
    b := IsInsideBeforeCompilationUnit(ancestors, BitSelectKinds);
    if b {
      return;
    }
    b := IsInsideBeforeCompilationUnit(ancestors, RangeSelectKinds);
    if b {
      return;
    }
    b := IsInsideBeforeCompilationUnit(ancestors, ArrayDimensionKinds);
    if b {
      return;
    }
    b := IsInsideBeforeCompilationUnit(ancestors, GenerateLoopKinds);
  }

  // ---------------------------------------------------------------------------------
  // Binary digit grouping

  /** The canonical grouping: an underscore before every group of four digits counted from
      the right; four digits or fewer stay as they are. */
  function Grouped(s: string): string
    decreases |s|
  {
    if |s| <= 4 then s else Grouped(s[..|s| - 4]) + "_" + s[|s| - 4..]
  }

  /** `formatBinaryWithUnderscores`: the right-to-left loop that prepends an underscore
      before every fifth, ninth, ... digit from the right. */
  method FormatBinaryWithUnderscores(cleanBinary: string) returns (result: string)
    ensures result == Grouped(cleanBinary)
  {
    if |cleanBinary| <= 4 {
      return cleanBinary;
    }
    result := "";
    var count := 0;
    var i := |cleanBinary| - 1;
    while i >= 0
      invariant -1 <= i < |cleanBinary|
      invariant count == |cleanBinary| - 1 - i
      invariant result == Grouped(cleanBinary[i + 1..])
    {
      FormatStep(cleanBinary, i, result);
      if count > 0 && count % 4 == 0 {
        result := "_" + result;
      }
      result := [cleanBinary[i]] + result;
      count := count + 1;
      i := i - 1;
    }
  }

  /** One iteration of the formatting loop extends the grouped suffix by one digit. */
  lemma FormatStep(s: string, i: nat, result: string)
    requires i < |s| && result == Grouped(s[i + 1..])
    ensures var count := |s| - 1 - i;
            Grouped(s[i..]) ==
            if count > 0 && count % 4 == 0 then [s[i]] + ("_" + result) else [s[i]] + result
  {
    assert s[i..] == [s[i]] + s[i + 1..];
    GroupedCons(s[i], s[i + 1..]);
  }

  /** Adding one digit on the left of a grouped string opens a new group exactly when the
      digits already there fill whole groups. */
  lemma {:induction false} GroupedCons(c: char, t: string)
    ensures Grouped([c] + t) ==
            if |t| > 0 && |t| % 4 == 0 then [c] + "_" + Grouped(t) else [c] + Grouped(t)
    decreases |t|
  {
    var k := |t|;
    if k > 4 {
      var u, tail := t[..k - 4], t[k - 4..];
      assert t == u + tail;
      GroupedCons(c, u);
      ConcatAssoc([c], u, tail);
      GroupedConsStep(c, u, tail, [c] + u, [c] + t);
    } else if k == 4 {
      GroupedOfLonger([c], t);
    }
  }

  /** The inductive step of `GroupedCons`: four more digits on the right. */
  lemma GroupedConsStep(c: char, u: string, tail: string, cu: string, ct: string)
    requires |u| > 0 && |tail| == 4
    requires cu == [c] + u && ct == cu + tail
    requires Grouped(cu) == if |u| % 4 == 0 then [c] + "_" + Grouped(u) else [c] + Grouped(u)
    ensures Grouped(ct) ==
            if |u| % 4 == 0 then [c] + "_" + Grouped(u + tail) else [c] + Grouped(u + tail)
  {
    GroupedOfLonger(cu, tail);
    GroupedOfLonger(u, tail);
    var g := Grouped(u);
    if |u| % 4 == 0 {
      ConcatAssoc([c] + "_" + g, "_", tail);
      ConcatAssoc([c] + "_", g, "_");
      ConcatAssoc([c] + "_", g + "_", tail);
    } else {
      ConcatAssoc([c] + g, "_", tail);
      ConcatAssoc([c], g, "_");
      ConcatAssoc([c], g + "_", tail);
    }
  }

  /** Unfolding `Grouped` once: the last four digits form a group of their own. */
  lemma GroupedOfLonger(p: string, tail: string)
    requires |p| > 0 && |tail| == 4
    ensures Grouped(p + tail) == Grouped(p) + "_" + tail
  {
    var s := p + tail;
    assert s[..|s| - 4] == p;
    assert s[|s| - 4..] == tail;
  }

  /** `isProperlyFormattedBinary`: the digits already carry the canonical grouping. */
  predicate IsProperlyFormattedBinary(binary: string) {
    binary == Grouped(StripUnderscores(binary))
  }

  // ---------------------------------------------------------------------------------
  // Text classification and the handler

  /** `^[0-9]+$`. */
  predicate IsPlainDecimal(text: string) {
    |text| > 0 && AllDecimalDigits(text)
  }

  /** `^'[bBoOdDhH][0-9a-fA-F_]+$`. */
  predicate IsUnsizedBased(text: string) {
    |text| >= 3 && text[0] == '\'' && IsBaseChar(text[1])
    && forall i :: 2 <= i < |text| ==> IsHexDigit(text[i]) || text[i] == '_'
  }

  predicate IsBinaryChar(c: char) {
    c == '0' || c == '1' || c == '_'
  }

  /** The two groups of `^([0-9]+)'[bB]([01_]+)$`: the width text and the digits. */
  function MatchSizedBinary(text: string): Option<(string, string)> {
    var k := DigitRun(text);
    if 0 < k && k + 2 < |text| && text[k] == '\'' && (text[k + 1] == 'b' || text[k + 1] == 'B')
       && forall i :: k + 2 <= i < |text| ==> IsBinaryChar(text[i])
    then Some((text[..k], text[k + 2..]))
    else None
  }

  /** The three messages of the rule, with the values they name. */
  datatype FormatDiagnostic =
    | MustBeSized(text: string)
    | UnsizedBased(text: string)
    | UngroupedBinary(width: string, properFormat: string)

  function Message(d: FormatDiagnostic): string {
    match d
    case MustBeSized(t) =>
      "All constants other than 0 and 1 must be sized (e.g., 18'd" + t + " instead of " + t + ")"
    case UnsizedBased(t) =>
      "Constants must be sized (e.g., 8" + t + " instead of " + t + ")"
    case UngroupedBinary(w, f) =>
      "Binary constants of more than 4 bits must be separated every 4 places with underscores (e.g., "
      + w + "'b" + f + ")"
  }

  /** What `handle(IntegerLiteral)` reports for a literal with this text and ancestry. */
  function FormatDiagnosticOf(text: string, ancestors: seq<SyntaxKind>): Option<FormatDiagnostic> {
    if Exempt(ancestors) then None
    else if IsPlainDecimal(text) then
      if text != "0" && text != "1" then Some(MustBeSized(text)) else None
    else if IsUnsizedBased(text) then Some(UnsizedBased(text))
    else
      match MatchSizedBinary(text)
      case None => None
      case Some((width, binary)) =>
        var clean := StripUnderscores(binary);
        if |clean| > 4 && !IsProperlyFormattedBinary(binary)
        then Some(UngroupedBinary(width, Grouped(clean)))
        else None
  }

  /** `MainVisitor::handle(IntegerLiteral)`. */
  method HandleLiteral(text: string, ancestors: seq<SyntaxKind>) returns (d: Option<FormatDiagnostic>)
    ensures d == FormatDiagnosticOf(text, ancestors)
  {
    var exempt := IsExempt(ancestors);
    if exempt {
      return None;
    }
    if IsPlainDecimal(text) {
      if text != "0" && text != "1" {
        return Some(MustBeSized(text));
      }
      return None;
    }
    if IsUnsizedBased(text) {
      return Some(UnsizedBased(text));
    }
    var matched := MatchSizedBinary(text);
    if matched.Some? {
      var (width, binary) := matched.value;
      var cleanBinary := StripUnderscores(binary);
      if |cleanBinary| > 4 {
        if !IsProperlyFormattedBinary(binary) {
          var properFormat := FormatBinaryWithUnderscores(cleanBinary);
          return Some(UngroupedBinary(width, properFormat));
        }
      }
    }
    return None;
  }

  /** The rule's findings for the literals the visitor meets, in visit order. */
  function CheckDiagnostics(literals: seq<(string, seq<SyntaxKind>)>): (ds: seq<FormatDiagnostic>)
    ensures |ds| <= |literals|
  {
    if literals == [] then []
    else
      var rest := CheckDiagnostics(literals[1..]);
      match FormatDiagnosticOf(literals[0].0, literals[0].1)
      case None => rest
      case Some(d) => [d] + rest
  }

  // ---------------------------------------------------------------------------------
  // Properties of the grouping

  predicate NoUnderscore(s: string) {
    forall i :: 0 <= i < |s| ==> s[i] != '_'
  }

  /** Four digits or fewer are returned unchanged; longer inputs gain one underscore per
      complete group of four after the leftmost group. */
  lemma {:induction false} GroupedLength(s: string)
    requires |s| > 0
    ensures |s| <= 4 ==> Grouped(s) == s
    ensures |Grouped(s)| == |s| + (|s| - 1) / 4
    decreases |s|
  {
    if |s| > 4 {
      GroupedLength(s[..|s| - 4]);
    }
  }

  /** Removing the underscores from the grouping of a clean digit string gives it back. */
  lemma {:induction false} GroupedRoundTrip(s: string)
    requires NoUnderscore(s)
    ensures StripUnderscores(Grouped(s)) == s
    decreases |s|
  {
    if |s| <= 4 {
      StripClean(s);
    } else {
      var p, tail := s[..|s| - 4], s[|s| - 4..];
      assert s == p + tail;
      GroupedOfLonger(p, tail);
      GroupedRoundTrip(p);
      var g := Grouped(p);
      StripAppend(g + "_", tail);
      StripAppend(g, "_");
      StripClean(tail);
      assert StripUnderscores("_") == [];
      assert StripUnderscores(g + "_") == p;
    }
  }

  /** In the grouping of a clean digit string, counting from the right, exactly every fifth
      character is an underscore and the first character is not: every group has four digits
      except the leftmost, which has one to four. */
  lemma {:induction false} GroupedPositions(s: string)
    requires |s| > 0 && NoUnderscore(s)
    ensures var r := Grouped(s);
            && |r| % 5 != 0
            && forall j :: 0 <= j < |r| ==> (r[j] == '_' <==> (|r| - j) % 5 == 0)
    decreases |s|
  {
    if |s| > 4 {
      var p, tail := s[..|s| - 4], s[|s| - 4..];
      assert s == p + tail;
      GroupedOfLonger(p, tail);
      GroupedPositions(p);
      var g := Grouped(p);
      var r := g + "_" + tail;
      assert |r| == |g| + 5;
      ModFiveShift(|g|);
      forall j | 0 <= j < |r|
        ensures r[j] == '_' <==> (|r| - j) % 5 == 0
      {
        if j < |g| {
          assert r[j] == g[j];
          ModFiveShift(|g| - j);
        } else if j > |g| {
          assert r[j] == tail[j - |g| - 1];
        }
      }
    }
  }

  lemma ModFiveShift(n: nat)
    ensures (n + 5) % 5 == n % 5
  {
  }

  /** Idempotence: the grouping of a clean digit string is properly formatted, and
      canonicalising an already canonical string changes nothing. */
  lemma GroupedIsProper(x: string)
    ensures NoUnderscore(x) ==> IsProperlyFormattedBinary(Grouped(x))
    ensures var canon := Grouped(StripUnderscores(x));
            Grouped(StripUnderscores(canon)) == canon
  {
    if NoUnderscore(x) {
      GroupedRoundTrip(x);
    }
    GroupedRoundTrip(StripUnderscores(x));
  }

  // ---------------------------------------------------------------------------------
  // Properties of the exemptions

  /** The delay-control test looks at the parent and the grandparent only. */
  lemma TimingDelayTwoLevels(near: seq<SyntaxKind>, far: seq<SyntaxKind>)
    requires |near| >= 2
    ensures IsTimingDelay(near + far) == IsTimingDelay(near)
    ensures IsTimingDelay(near) <==> DelayControl in near[..2]
  {
  }

  /** The parameter test looks at the five nearest ancestors only. */
  lemma ParameterFiveLevels(near: seq<SyntaxKind>, far: seq<SyntaxKind>)
    requires |near| >= 5
    ensures WithinFiveLevels(near + far, ParameterKinds) == WithinFiveLevels(near, ParameterKinds)
  {
    if WithinFiveLevels(near + far, ParameterKinds) {
      var i :| 0 <= i < |near + far| && i < 5 && (near + far)[i] in ParameterKinds;
      assert near[i] == (near + far)[i];
    }
    if WithinFiveLevels(near, ParameterKinds) {
      var i :| 0 <= i < |near| && i < 5 && near[i] in ParameterKinds;
      assert near[i] == (near + far)[i];
    }
  }

  /** The four select, dimension and loop-bound tests never look past a compilation unit. */
  lemma CompilationUnitStopsSearch(near: seq<SyntaxKind>, far: seq<SyntaxKind>, kinds: set<SyntaxKind>)
    requires CompilationUnit !in kinds
    ensures FoundBeforeCompilationUnit(near + [CompilationUnit] + far, kinds)
            == FoundBeforeCompilationUnit(near, kinds)
  {
    var all := near + [CompilationUnit] + far;
    forall i | |near| <= i < |all| && all[i] in kinds
      ensures CompilationUnit in all[..i + 1]
    {
      assert all[..i + 1][|near|] == CompilationUnit;
    }
    if FoundBeforeCompilationUnit(all, kinds) {
      var i :| 0 <= i < |all| && all[i] in kinds && CompilationUnit !in all[..i + 1];
      assert all[..i + 1] == near[..i + 1];
    }
    if FoundBeforeCompilationUnit(near, kinds) {
      var i :| 0 <= i < |near| && near[i] in kinds && CompilationUnit !in near[..i + 1];
      assert all[..i + 1] == near[..i + 1];
    }
  }

  // ---------------------------------------------------------------------------------
  // Properties of the handler

  /** An exempt literal is never reported, whatever its text. */
  lemma ExemptNeverReported(text: string, ancestors: seq<SyntaxKind>)
    requires Exempt(ancestors)
    ensures FormatDiagnosticOf(text, ancestors) == None
  {
  }

  /** Plain decimal text is reported once iff it is neither `0` nor `1`. */
  lemma PlainDecimalRule(text: string, ancestors: seq<SyntaxKind>)
    requires !Exempt(ancestors) && IsPlainDecimal(text)
    ensures FormatDiagnosticOf(text, ancestors)
            == if text != "0" && text != "1" then Some(MustBeSized(text)) else None
  {
  }

  /** Unsized based text is always reported. */
  lemma UnsizedBasedRule(text: string, ancestors: seq<SyntaxKind>)
    requires !Exempt(ancestors) && IsUnsizedBased(text)
    ensures FormatDiagnosticOf(text, ancestors) == Some(UnsizedBased(text))
  {
    assert !IsDecimalDigit(text[0]);
  }

  /** The sized-binary pattern matches `<digits>'b<binary digits and underscores>`. */
  lemma MatchSizedBinaryExactly(text: string, widthText: string, b: char, binary: string)
    requires text == widthText + "'" + [b] + binary
    requires |widthText| > 0 && AllDecimalDigits(widthText) && (b == 'b' || b == 'B')
    requires |binary| > 0 && forall i :: 0 <= i < |binary| ==> IsBinaryChar(binary[i])
    ensures MatchSizedBinary(text) == Some((widthText, binary))
  {
    var k := |widthText|;
    assert text == widthText + ("'" + [b] + binary);
    DigitRunOfConcat(widthText, "'" + [b] + binary);
    assert text[..k] == widthText;
    assert text[k + 2..] == binary;
    assert forall i :: k + 2 <= i < |text| ==> text[i] == binary[i - k - 2];
  }

  /** A sized binary literal is reported iff it has more than four digits and does not
      carry the canonical grouping; the message gives the canonical form. */
  lemma SizedBinaryRule(text: string, widthText: string, b: char, binary: string, ancestors: seq<SyntaxKind>)
    requires text == widthText + "'" + [b] + binary
    requires |widthText| > 0 && AllDecimalDigits(widthText) && (b == 'b' || b == 'B')
    requires |binary| > 0 && forall i :: 0 <= i < |binary| ==> IsBinaryChar(binary[i])
    requires !Exempt(ancestors)
    ensures var d := FormatDiagnosticOf(text, ancestors);
            var clean := StripUnderscores(binary);
            && (d.Some? <==> |clean| > 4 && binary != Grouped(clean))
            && (d.Some? ==> d.value == UngroupedBinary(widthText, Grouped(clean)))
  {
    MatchSizedBinaryExactly(text, widthText, b, binary);
    assert text[|widthText|] == '\'';
    assert !IsPlainDecimal(text);
    assert IsDecimalDigit(text[0]);
  }

  /** `8'b1010_1100` passes. */
  lemma GroupedBinaryPasses(ancestors: seq<SyntaxKind>)
    requires !Exempt(ancestors)
    ensures FormatDiagnosticOf("8" + "'" + "b" + "1010_1100", ancestors) == None
  {
    EightDigitsGrouping();
    BinaryCharsOnly("1010_1100");
    SizedBinaryRule("8" + "'" + "b" + "1010_1100", "8", 'b', "1010_1100", ancestors);
  }

  /** `8'b10101100` fails and is told the form `8'b1010_1100`. */
  lemma UngroupedBinaryFails(ancestors: seq<SyntaxKind>)
    requires !Exempt(ancestors)
    ensures FormatDiagnosticOf("8" + "'" + "b" + "10101100", ancestors) == Some(UngroupedBinary("8", "1010_1100"))
  {
    var bits := "10101100";
    EightBitsUngrouped();
    SizedBinaryRule("8" + "'" + "b" + bits, "8", 'b', bits, ancestors);
  }

  lemma EightBitsUngrouped()
    ensures var bits := "10101100";
            Grouped(StripUnderscores(bits)) == "1010_1100" && bits != "1010_1100"
            && StripUnderscores(bits) == bits
            && forall i :: 0 <= i < |bits| ==> IsBinaryChar(bits[i])
  {
    var bits, grouped := "10101100", "1010_1100";
    EightDigitsGrouping();
    BinaryCharsOnly(bits);
    StripClean(bits);
    assert |bits| != |grouped|;
  }

  lemma BinaryCharsOnly(s: string)
    requires s == "10101100" || s == "1010_1100"
    ensures forall i :: 0 <= i < |s| ==> IsBinaryChar(s[i]) && (s == "10101100" ==> s[i] != '_')
  {
  }

  lemma EightDigitsGrouping()
    ensures StripUnderscores("1010_1100") == "10101100"
    ensures Grouped("10101100") == "1010_1100"
  {
    EightDigitsStrip();
    EightDigitsSplit();
    GroupedOfLonger("1010", "1100");
  }

  lemma EightDigitsSplit()
    ensures "10101100" == "1010" + "1100"
    ensures "1010_1100" == "1010" + "_" + "1100"
  {
  }

  lemma EightDigitsStrip()
    ensures StripUnderscores("1010_1100") == "10101100"
  {
    var a, b := "1010", "1100";
    StripClean(a);
    StripClean(b);
    StripAppend(a + "_", b);
    StripAppend(a, "_");
    assert StripUnderscores("_") == [];
    assert "1010_1100" == (a + "_") + b;
    assert "10101100" == a + b;
  }

  /** `255` and `'hFF` fail; `0` and `1` pass (outside any exempt position). */
  lemma SizingExamples(ancestors: seq<SyntaxKind>)
    requires !Exempt(ancestors)
    ensures FormatDiagnosticOf("255", ancestors) == Some(MustBeSized("255"))
    ensures FormatDiagnosticOf("0", ancestors) == None
    ensures FormatDiagnosticOf("1", ancestors) == None
    ensures FormatDiagnosticOf("'hFF", ancestors) == Some(UnsizedBased("'hFF"))
  {
    PlainDecimalRule("255", ancestors);
    UnsizedBasedRule("'hFF", ancestors);
  }

  /** The check passes iff no literal yields a diagnostic. */
  lemma {:induction false} CheckPassesIff(literals: seq<(string, seq<SyntaxKind>)>)
    ensures CheckDiagnostics(literals) == [] <==>
              forall i :: 0 <= i < |literals| ==> FormatDiagnosticOf(literals[i].0, literals[i].1).None?
  {
    if literals != [] {
      CheckPassesIff(literals[1..]);
      assert forall i :: 1 <= i < |literals| ==> literals[i] == literals[1..][i - 1];
    }
  }
}

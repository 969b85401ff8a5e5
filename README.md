# slang-tidy rule logic in Dafny

This project models the decision procedures of five slang-tidy style checks and the
driver loop that folds their results into a run summary. It then proves properties of
those procedures.

- **ConstantWidthCheck.** A sized integer literal `<w>'<base><digits>` must have a value
  that fits in `w` bits. The model covers:
  - the digit validation;
  - the overflow-guarded parse into an unsigned 64-bit value, with `UINT64_MAX` as the
    error sentinel;
  - the comparison with `2^w - 1`.
- **ConstantFormatting.** This check has three parts:
  - An unsized decimal literal other than `0` and `1` is reported.
  - An unsized based literal is reported.
  - A sized binary literal of more than four digits must group its digits by four with
    underscores.

  Six ancestor tests exempt literals in delay controls, parameter declarations, selects,
  array dimensions and loop headers.
- **DefaultNettypeNone.** Every file's text must contain `` `default_nettype `` followed by
  `none`, with only spaces and tabs in between. `none` must start fewer than 20 characters
  after the directive. A file that fails gets one diagnostic at the start of its root.
- **NoLogicInPortConnections.** The expression of a named port connection may be a name, a
  literal, a select, a member access, or a concatenation of allowed operands. Anything else
  is reported and the message names the port.
- **LoopsInGenerate.** A `for` loop or a generate loop must have a generate region, a
  generate block, or an `always`/`always_comb`/`always_ff`/`initial`/`final` block on its
  chain to the root.
- **The driver.** The loop over the enabled checks counts passes and failures, the names of
  the failed rules, the severity tallies and the return code. The `--code ABCD-<id>` lookup
  is modelled too.

The parser, the visitors and the regular-expression engine are replaced by abstract
inputs:
- the literal's printed text;
- the chain of ancestor kinds;
- a small expression tree;
- each check's result as a record.

Each loop of the source is a Dafny method with invariants. Its `ensures` ties it to a
reference function, and the properties are lemmas about those functions. The two syntax
visitors that collect into vectors are classes with `seq` fields.

### Behaviour worth noting

- **Return code.** The return code is 1 only when output is not quiet and a failed check's
  check-level severity is Error or Fatal (tools/tidy/src/tidy.cpp:286-293). The severity
  of individual diagnostics does not decide it. `--super-quiet` implies quiet, so a quiet
  run returns 0 whatever fails.
- **Severity tallies.** A diagnostic whose effective severity is not Note, Warning, Error
  or Fatal, such as an Ignored one, is counted in no tally (tools/tidy/src/tidy.cpp:254-270).
- **Widths.** Widths 1 to 63 inclusive are checked; width 0 and widths of 64 or more are
  never reported (tools/tidy/src/style/ConstantWidthCheck.cpp:40-42).
- **Argument token.** The directive may appear anywhere in the file's text. Between the
  directive and `none` only spaces and tabs may stand, at most three of them.
- **Nested logic in connections.** Only the top level of a connection's expression is
  inspected, plus a concatenation's direct elements. Logic nested deeper inside an
  accepted kind, such as an operator inside a member access or a select index, is not
  reported.
- **Unknown base letters.** `isValidForBase` applies its `switch` only to characters that
  are not underscores. With an unknown base it therefore accepts a non-empty string of
  underscores. The parse still returns the sentinel for such a string.

## Model

| member | source | states |
|---|---|---|
| Text.StripUnderscores | tools/tidy/src/style/ConstantWidthCheck.cpp:93-94 | the result holds no underscore, is no longer than the input and contains exactly the input's other characters |
| ConstantWidth.BaseValue | tools/tidy/src/style/ConstantWidthCheck.cpp:103-109 | each of the four base letters has radix 2, 8, 10 or 16 |
| ConstantWidth.IsValidForBase | tools/tidy/src/style/ConstantWidthCheck.cpp:62-86 | true iff the text is non-empty and every character is an underscore or a digit of the base; an unknown base rejects only non-underscore characters |
| ConstantWidth.ParseValueByBase | tools/tidy/src/style/ConstantWidthCheck.cpp:88-135 | the result is the radix value of the digits with underscores removed, or `UINT64_MAX` when validation fails, only underscores remain or the value passes 64 bits; it never exceeds `UINT64_MAX` |
| ConstantWidth.AccumulateStep | tools/tidy/src/style/ConstantWidthCheck.cpp:127-131 | when the guard fires the whole digit string is worth more than `UINT64_MAX`; otherwise the new accumulator is the value of the next prefix and fits |
| ConstantWidth.CleanDigitsValid | tools/tidy/src/style/ConstantWidthCheck.cpp:111-125 | after validation every remaining character decodes to a digit below the radix, so the parse's own rejections cannot fire |
| ConstantWidth.DigitForValue | tools/tidy/src/style/ConstantWidthCheck.cpp:68-80 | the validation switch accepts a character iff the parse's decoder gives it a value below the radix |
| ConstantWidth.OverflowGuardExact | tools/tidy/src/style/ConstantWidthCheck.cpp:127-131 | `result > (max - digit) / b` holds exactly when `result * b + digit > max` |
| ConstantWidth.PrefixValueAtMost | tools/tidy/src/style/ConstantWidthCheck.cpp:111-132 | a prefix of the digits is never worth more than the whole string, so stopping early on overflow is sound |
| ConstantWidth.MatchSizedExactly | tools/tidy/src/style/ConstantWidthCheck.cpp:32-38 | the sized pattern matches `<digits>'<base letter><rest>` with the width's decimal value, the base letter and the rest as its groups |
| ConstantWidth.MatchSizedShape | tools/tidy/src/style/ConstantWidthCheck.cpp:32-38 | every match splits the text into a non-empty width, a quote, a base letter and non-empty digits |
| ConstantWidth.MaxBelowSentinel | tools/tidy/src/style/ConstantWidthCheck.cpp:45-49 | for every checked width the maximum `2^w - 1` lies below the sentinel |
| ConstantWidth.HandleLiteral | tools/tidy/src/style/ConstantWidthCheck.cpp:28-59 | the handler's outcome is the rule's verdict on the text: no diagnostic without a match, for a width outside 1..63 or on a parse failure, else a diagnostic with value, text, width and maximum iff the value exceeds the maximum |
| ConstantWidth.CheckDiagnostics | tools/tidy/src/style/ConstantWidthCheck.cpp:146-150 | a check yields at most one diagnostic per literal |
| ConstantWidth.ValidationEdgeCases | tools/tidy/src/style/ConstantWidthCheck.cpp:62-86 | the empty text is invalid; with an unknown base, exactly the non-empty all-underscore texts are valid |
| ConstantWidth.ParseResultExactly | tools/tidy/src/style/ConstantWidthCheck.cpp:88-135 | the sentinel is returned iff validation fails, only underscores remain or the true value is `UINT64_MAX` or more; otherwise the true value is returned, and an unknown base always gives the sentinel |
| ConstantWidth.FlagsExactly | tools/tidy/src/style/ConstantWidthCheck.cpp:40-56 | for width 1..63 a diagnostic is emitted iff the digits are valid and non-empty and `2^w - 1 < v < UINT64_MAX`, and it carries `v`, `w` and `2^w - 1` |
| ConstantWidth.UncheckedWidths | tools/tidy/src/style/ConstantWidthCheck.cpp:40-42 | widths of 64 or more, and width 0, never produce a diagnostic |
| ConstantWidth.ParseFailureSkipped | tools/tidy/src/style/ConstantWidthCheck.cpp:44-47 | a literal whose parse yields the sentinel produces no diagnostic |
| ConstantWidth.BaseCaseInsensitive | tools/tidy/src/style/ConstantWidthCheck.cpp:32-37 | an upper-case base letter is reported exactly when the lower-case one is, with the same value, width and maximum |
| ConstantWidth.WidthExampleFits | tools/tidy/src/style/ConstantWidthCheck.cpp:49-56 | `4'hF` produces no diagnostic |
| ConstantWidth.WidthExampleOverflows | tools/tidy/src/style/ConstantWidthCheck.cpp:49-56 | `4'h10` produces the diagnostic with value 16, width 4 and maximum 15 |
| ConstantWidth.CheckPassesIff | tools/tidy/src/style/ConstantWidthCheck.cpp:146-150 | the check passes iff no literal yields a diagnostic |
| ConstantFormatting.IsParameterAssignment | tools/tidy/src/style/ConstantFormatting.cpp:105-120 | true iff one of the five nearest ancestors is a parameter declaration, parameter statement or parameter port list |
| ConstantFormatting.IsInsideBeforeCompilationUnit | tools/tidy/src/style/ConstantFormatting.cpp:122-181 | true iff an ancestor of one of the kinds comes before the first compilation unit |
| ConstantFormatting.IsExempt | tools/tidy/src/style/ConstantFormatting.cpp:32-54 | true iff one of the six exemption tests holds |
| ConstantFormatting.FormatBinaryWithUnderscores | tools/tidy/src/style/ConstantFormatting.cpp:189-206 | the right-to-left loop yields the canonical grouping `Grouped` of its input |
| ConstantFormatting.FormatStep | tools/tidy/src/style/ConstantFormatting.cpp:197-203 | one loop iteration prepends the digit, and an underscore first when a whole group of four is already there |
| ConstantFormatting.GroupedCons | tools/tidy/src/style/ConstantFormatting.cpp:197-203 | prepending a digit opens a new group exactly when the digits already present fill whole groups |
| ConstantFormatting.HandleLiteral | tools/tidy/src/style/ConstantFormatting.cpp:27-89 | the handler's outcome is the rule's verdict on text and ancestry: exemptions first, then the decimal, unsized-based and sized-binary rules in order |
| ConstantFormatting.CheckDiagnostics | tools/tidy/src/style/ConstantFormatting.cpp:217-221 | a check yields at most one diagnostic per literal |
| ConstantFormatting.GroupedLength | tools/tidy/src/style/ConstantFormatting.cpp:189-205 | four digits or fewer are returned unchanged; `n` digits become `n + (n - 1) / 4` characters |
| ConstantFormatting.GroupedRoundTrip | tools/tidy/src/style/ConstantFormatting.cpp:194-205 | removing the underscores from the grouping of a clean digit string gives it back |
| ConstantFormatting.GroupedPositions | tools/tidy/src/style/ConstantFormatting.cpp:197-203 | counted from the right, exactly every fifth character of the grouping is an underscore and the length is no multiple of five, so every group has four digits except the leftmost, which has one to four |
| ConstantFormatting.GroupedIsProper | tools/tidy/src/style/ConstantFormatting.cpp:183-187 | the grouping of a clean string is properly formatted, and canonicalising a canonical string changes nothing |
| ConstantFormatting.TimingDelayTwoLevels | tools/tidy/src/style/ConstantFormatting.cpp:92-103 | the delay test looks only at the parent and the grandparent |
| ConstantFormatting.ParameterFiveLevels | tools/tidy/src/style/ConstantFormatting.cpp:105-120 | the parameter test looks only at the five nearest ancestors |
| ConstantFormatting.CompilationUnitStopsSearch | tools/tidy/src/style/ConstantFormatting.cpp:122-181 | the select, range, dimension and loop tests ignore everything beyond the first compilation unit |
| ConstantFormatting.ExemptNeverReported | tools/tidy/src/style/ConstantFormatting.cpp:32-54 | an exempt literal is never reported, whatever its text |
| ConstantFormatting.PlainDecimalRule | tools/tidy/src/style/ConstantFormatting.cpp:56-63 | plain decimal text is reported, as must-be-sized, iff it is neither `0` nor `1`, and no later rule applies |
| ConstantFormatting.UnsizedBasedRule | tools/tidy/src/style/ConstantFormatting.cpp:65-69 | unsized based text is always reported |
| ConstantFormatting.MatchSizedBinaryExactly | tools/tidy/src/style/ConstantFormatting.cpp:71-74 | the sized-binary pattern matches `<digits>'b<binary>` with the width text and the binary digits as its groups |
| ConstantFormatting.SizedBinaryRule | tools/tidy/src/style/ConstantFormatting.cpp:71-86 | a sized binary literal is reported iff it has more than four digits and differs from the canonical grouping, and the message carries that grouping |
| ConstantFormatting.GroupedBinaryPasses | tools/tidy/src/style/ConstantFormatting.cpp:72-86 | `8'b1010_1100` passes |
| ConstantFormatting.UngroupedBinaryFails | tools/tidy/src/style/ConstantFormatting.cpp:72-86 | `8'b10101100` fails and is told the form `1010_1100` |
| ConstantFormatting.SizingExamples | tools/tidy/src/style/ConstantFormatting.cpp:56-69 | `255` and `'hFF` are reported; `0` and `1` are not |
| ConstantFormatting.CheckPassesIff | tools/tidy/src/style/ConstantFormatting.cpp:217-221 | the check passes iff no literal yields a diagnostic |
| DefaultNettype.Find | tools/tidy/src/style/DefaultNettypeNone.cpp:47-50 | the result is the first occurrence at or after the start position, or none when there is none |
| DefaultNettype.ArgumentAfterDirective | tools/tidy/src/style/DefaultNettypeNone.cpp:54-55 | `none` cannot start inside the directive, so `pos + 16 <= nonePos` and the gap is well defined |
| DefaultNettype.OnlyBlanks | tools/tidy/src/style/DefaultNettypeNone.cpp:56-62 | the flag is true iff the gap holds only spaces and tabs |
| DefaultNettype.HasDefaultNettypeNone | tools/tidy/src/style/DefaultNettypeNone.cpp:36-69 | the scan's verdict is true iff some occurrence of the directive has its first following `none` fewer than 20 characters away with only blanks between; the loop terminates |
| DefaultNettype.FailingStarts | tools/tidy/src/style/DefaultNettypeNone.cpp:27-33 | at most one diagnostic per file |
| DefaultNettype.CheckTrees | tools/tidy/src/style/DefaultNettypeNone.cpp:27-33 | scanning every tree yields the diagnostics of the failing files, in order |
| DefaultNettype.FindReaches | tools/tidy/src/style/DefaultNettypeNone.cpp:47-50 | a search finds an occurrence no later than any occurrence after its start |
| DefaultNettype.GapAtMostThree | tools/tidy/src/style/DefaultNettypeNone.cpp:51-55 | for a qualifying occurrence the gap has at most three characters and may be empty |
| DefaultNettype.ArgumentAfterGap | tools/tidy/src/style/DefaultNettypeNone.cpp:50 | after a gap free of `n`, the first `none` is the one right after the gap |
| DefaultNettype.DirectiveThenNonePasses | tools/tidy/src/style/DefaultNettypeNone.cpp:47-66 | the directive, at most three blanks and `none`, anywhere in the text, make the file pass |
| DefaultNettype.NonBlankGapDisqualifies | tools/tidy/src/style/DefaultNettypeNone.cpp:56-62 | any character other than a space or tab in the gap, such as a newline, disqualifies that occurrence |
| DefaultNettype.NoArgumentFails | tools/tidy/src/style/DefaultNettypeNone.cpp:50-52 | a text without `none` fails |
| DefaultNettype.NoDirectiveFails | tools/tidy/src/style/DefaultNettypeNone.cpp:47-48 | a text without the directive fails |
| DefaultNettype.OtherArgumentFails | tools/tidy/src/style/DefaultNettypeNone.cpp:47-75 | `` `default_nettype wire `` fails |
| DefaultNettype.ArgumentNonePasses | tools/tidy/src/style/DefaultNettypeNone.cpp:47-66 | `` `default_nettype none `` passes |
| DefaultNettype.FailingStartsAppend | tools/tidy/src/style/DefaultNettypeNone.cpp:30-32 | files are judged independently: the diagnostics of two lists of files are those of each, in order |
| DefaultNettype.FailingStartsExactly | tools/tidy/src/style/DefaultNettypeNone.cpp:71-75 | a location is reported iff it is the root start of some failing file |
| DefaultNettype.CheckPassesIff | tools/tidy/src/style/DefaultNettypeNone.cpp:87-91 | the check passes iff every file passes |
| PortConnections.FindingsOf | tools/tidy/src/style/NoLogicInPortConnections.cpp:21-28 | a connection yields at most one finding, only with a parenthesis and an unwrappable expression, and the finding holds that expression and the port's name |
| PortConnections.Findings | tools/tidy/src/style/NoLogicInPortConnections.cpp:20-26 | at most one finding per connection |
| PortConnections.AllElementsAllowed | tools/tidy/src/style/NoLogicInPortConnections.cpp:104-110 | the flag is true iff every direct element of the concatenation has an allowed kind |
| PortConnections.PortConnectionVisitor.constructor | tools/tidy/src/style/NoLogicInPortConnections.cpp:125 | the visitor starts with no findings |
| PortConnections.PortConnectionVisitor.Handle | tools/tidy/src/style/NoLogicInPortConnections.cpp:21-28 | handling a connection appends exactly its findings |
| PortConnections.PortConnectionVisitor.CheckExpression | tools/tidy/src/style/NoLogicInPortConnections.cpp:68-118 | one `{expr, portName}` is appended iff the expression is logic, and nothing otherwise |
| PortConnections.DiagnosticOf | tools/tidy/src/style/NoLogicInPortConnections.cpp:141-145 | a diagnostic points at the found expression, and its message quotes the port's name right after the fixed prefix `logic expression in port connection '` |
| PortConnections.Diagnostics | tools/tidy/src/style/NoLogicInPortConnections.cpp:140-147 | exactly one diagnostic per finding |
| PortConnections.DiagnosticsAppend | tools/tidy/src/style/NoLogicInPortConnections.cpp:140-147 | the diagnostics of two lists of findings are those of each, in order |
| PortConnections.CheckInstanceBody | tools/tidy/src/style/NoLogicInPortConnections.cpp:131-148 | an instance body's diagnostics are one per finding of its connections, in visit order |
| PortConnections.Report | tools/tidy/src/style/NoLogicInPortConnections.cpp:140-147 | the reporting loop emits one diagnostic per finding, in order |
| PortConnections.Check | tools/tidy/src/style/NoLogicInPortConnections.cpp:160-163 | the diagnostics are those of every visited instance body, and the check passes iff there are no findings |
| PortConnections.ConnectionReportedIff | tools/tidy/src/style/NoLogicInPortConnections.cpp:21-49 | a connection is reported iff it has a parenthesis and an expression, the expression is a simple property of a simple sequence, and it is logic |
| PortConnections.TopLevelKindsAccepted | tools/tidy/src/style/NoLogicInPortConnections.cpp:72-99 | names, the eight literal kinds, selects, `BitType` and member access are never logic |
| PortConnections.ConcatenationRule | tools/tidy/src/style/NoLogicInPortConnections.cpp:102-117 | a concatenation is logic iff some direct element has a kind outside the allow list |
| PortConnections.AllowListNarrower | tools/tidy/src/style/NoLogicInPortConnections.cpp:58-67 | every allowed element kind is accepted at the top level; real and string literals, member access and nested concatenations are not allowed as elements |
| PortConnections.OnlyTopLevelInspected | tools/tidy/src/style/NoLogicInPortConnections.cpp:68-118 | two expressions with the same kind and the same element kinds get the same verdict |
| PortConnections.FindingsAppend | tools/tidy/src/style/NoLogicInPortConnections.cpp:117 | findings accumulate in visit order |
| PortConnections.FindingsNamePorts | tools/tidy/src/style/NoLogicInPortConnections.cpp:117 | each finding comes from one connection and carries that connection's name |
| PortConnections.FindingsEmptyIff | tools/tidy/src/style/NoLogicInPortConnections.cpp:117 | a list of connections has no finding iff none of them is reported |
| PortConnections.BodyFindingsEmptyIff | tools/tidy/src/style/NoLogicInPortConnections.cpp:131-138 | an instance body has no finding iff it is skipped, has no syntax, or none of its connections is reported |
| PortConnections.CheckPassesIff | tools/tidy/src/style/NoLogicInPortConnections.cpp:160-163 | the check passes iff no instance body has a finding |
| PortConnections.LogicConnectionReported | tools/tidy/src/style/NoLogicInPortConnections.cpp:116-117 | `.I0(~a \| b)` is reported against `I0` |
| PortConnections.MessageNamesPort | tools/tidy/src/style/NoLogicInPortConnections.cpp:143-145 | every message quotes its port name after the fixed prefix |
| PortConnections.SimpleConnectionsAccepted | tools/tidy/src/style/NoLogicInPortConnections.cpp:72-113 | `.O({a, b})` and `.I(1'b1)` are not reported |
| PortConnections.NestedConcatenationReported | tools/tidy/src/style/NoLogicInPortConnections.cpp:102-117 | a concatenation that nests another concatenation is logic |
| LoopsInGenerate.IsInsideGenerateOrProcedural | tools/tidy/src/style/LoopsInGenerate.cpp:32-46 | true iff some kind on the chain from the node itself to the root is one of the seven enclosing kinds |
| LoopsInGenerate.OfKind | tools/tidy/src/style/LoopsInGenerate.cpp:22-29 | a visitor list is never longer than the nodes visited |
| LoopsInGenerate.LoopVisitor.constructor | tools/tidy/src/style/LoopsInGenerate.cpp:28-29 | both lists start empty |
| LoopsInGenerate.LoopVisitor.Handle | tools/tidy/src/style/LoopsInGenerate.cpp:23-25 | a `for` loop is appended to the first list, a generate loop to the second, and nothing else changes |
| LoopsInGenerate.LoopVisitor.Visit | tools/tidy/src/style/LoopsInGenerate.cpp:22-29 | visiting the nodes the syntax visitor reaches appends the loops among them to their kind's list, in visit order |
| LoopsInGenerate.Unenclosed | tools/tidy/src/style/LoopsInGenerate.cpp:59-63 | at most one diagnostic per loop |
| LoopsInGenerate.ReportUnenclosed | tools/tidy/src/style/LoopsInGenerate.cpp:59-63 | the reporting loop emits the keyword location of every unenclosed loop, in order |
| LoopsInGenerate.CheckNodes | tools/tidy/src/style/LoopsInGenerate.cpp:76-89 | one tree's diagnostics are its unenclosed `for` loops first, then its unenclosed generate loops |
| LoopsInGenerate.HandleInstanceBody | tools/tidy/src/style/LoopsInGenerate.cpp:51-70 | a skipped body or one without syntax yields nothing; otherwise the tree's diagnostics |
| LoopsInGenerate.Check | tools/tidy/src/style/LoopsInGenerate.cpp:72-91 | the diagnostics are those of every syntax tree in turn, and the check passes iff there are none |
| LoopsInGenerate.InsideConcat | tools/tidy/src/style/LoopsInGenerate.cpp:33-45 | the verdict on a chain is the disjunction of the verdicts on its parts, so adding ancestors never turns true into false |
| LoopsInGenerate.EnclosingAncestorSuffices | tools/tidy/src/style/LoopsInGenerate.cpp:33-45 | an enclosing kind anywhere above the loop makes it acceptable |
| LoopsInGenerate.LatchBlockNotEnclosing | tools/tidy/src/style/LoopsInGenerate.cpp:38-40 | a loop whose only block is `always_latch` is not enclosed |
| LoopsInGenerate.OfKindAppend | tools/tidy/src/style/LoopsInGenerate.cpp:22-29 | the visitor's lists for two runs of nodes are the lists of each, in order |
| LoopsInGenerate.OfKindExactly | tools/tidy/src/style/LoopsInGenerate.cpp:22-29 | a node is recorded iff it is among the nodes reached and has the list's kind |
| LoopsInGenerate.UnenclosedAppend | tools/tidy/src/style/LoopsInGenerate.cpp:59-63 | reporting two lists of loops gives the diagnostics of each, in order |
| LoopsInGenerate.UnenclosedExactly | tools/tidy/src/style/LoopsInGenerate.cpp:59-63 | a location is reported iff it is the keyword of an unenclosed loop; enclosed loops yield nothing |
| LoopsInGenerate.NoUnenclosedIff | tools/tidy/src/style/LoopsInGenerate.cpp:59-69 | a tree yields no diagnostic for a loop kind iff every loop of that kind is enclosed |
| LoopsInGenerate.TreePassesIff | tools/tidy/src/style/LoopsInGenerate.cpp:76-89 | a tree yields no diagnostic iff all its `for` and generate loops are enclosed |
| LoopsInGenerate.CheckPassesIff | tools/tidy/src/style/LoopsInGenerate.cpp:102-106 | the check passes iff every tree passes |
| LoopsInGenerate.LoopInGenerateRegionPasses | tools/tidy/src/style/LoopsInGenerate.cpp:33-36 | a loop inside a generate region passes |
| LoopsInGenerate.ModuleLevelLoopReported | tools/tidy/src/style/LoopsInGenerate.cpp:85-89 | a module-level generate loop is reported at its keyword |
| LoopsInGenerate.LoopInAlwaysCombPasses | tools/tidy/src/style/LoopsInGenerate.cpp:38-42 | a `for` loop inside `always_comb` passes |
| Tidy.Counted | tools/tidy/src/tidy.cpp:254-270 | a tally never exceeds the number of diagnostics |
| Tidy.PassedCount | tools/tidy/src/tidy.cpp:306-307 | passed checks never exceed the checks run |
| Tidy.FailedNames | tools/tidy/src/tidy.cpp:248-251 | at most one name per check |
| Tidy.TallySeverities | tools/tidy/src/tidy.cpp:254-270 | the severity switch counts Notes, Warnings, and Errors with Fatals, each in its own tally |
| Tidy.RunChecks | tools/tidy/src/tidy.cpp:227-311 | after the loop, the passed count, the failed names in enabled order, `failedChecks == \|failedRuleNames\|`, the three tallies over failed checks and the return code are those of the reference definitions |
| Tidy.RetCodeStep | tools/tidy/src/tidy.cpp:272-293 | one more check sets the return code to 1 iff output is not quiet and it failed with check-level severity Error or Fatal; otherwise the code is kept |
| Tidy.Run | tools/tidy/src/tidy.cpp:211-220 | a failed compilation returns 1 with no summary; otherwise the exit code is the summary's return code, 0 in quiet or super-quiet mode and, when not quiet, 1 iff some failed check has check-level severity Error or Fatal |
| Tidy.PassedPlusFailed | tools/tidy/src/tidy.cpp:237-311 | passed plus failed checks equals the number of enabled checks |
| Tidy.FailedNamesAppend | tools/tidy/src/tidy.cpp:251 | failed names accumulate in enabled order |
| Tidy.FailedNamesExactly | tools/tidy/src/tidy.cpp:248-251 | a name is listed iff a check of that name failed |
| Tidy.TallyPartition | tools/tidy/src/tidy.cpp:254-270 | each diagnostic lands in at most one tally; the tallies add up to the count iff no diagnostic is Ignored |
| Tidy.TalliesBounded | tools/tidy/src/tidy.cpp:254-270 | the three totals together never exceed the number of diagnostics |
| Tidy.FailedTallyAppend | tools/tidy/src/tidy.cpp:237-311 | tallies over two runs of checks add up |
| Tidy.PassingNotCounted | tools/tidy/src/tidy.cpp:306-310 | replacing a passing check's diagnostics changes no tally |
| Tidy.RetCodeNeverReverts | tools/tidy/src/tidy.cpp:286-293 | once the return code is 1 it stays 1 |
| Tidy.IndexOf | tools/tidy/src/tidy.cpp:99 | the result is the first position of the character, or none when it is absent |
| Tidy.ParseUnsignedLong | tools/tidy/src/tidy.cpp:108 | the value is the decimal value of the leading digits; there is none iff the text does not start with a digit or those digits exceed `ULLONG_MAX` |
| Tidy.FirstMatch | tools/tidy/src/tidy.cpp:115-122 | the result is the first registered check matching both code number and kind, or none |
| Tidy.LookupCode | tools/tidy/src/tidy.cpp:99-125 | the lookup splits at the first hyphen, parses the id before testing the kind, and describes the first matching check |
| Tidy.CodeLookupOutcomes | tools/tidy/src/tidy.cpp:99-125 | a code without `-` is malformed; an unknown kind names the text before the hyphen; a description belongs to a registered check whose kind and code number the text gives; exit status 0 iff a check is described |
| Tidy.FirstMatchDescribed | tools/tidy/src/tidy.cpp:115-121 | when a registered check matches, the first such check is described |

## Left out

- Parsing, elaboration and the AST and syntax visitors are left out. Their results are
  inputs:
  - the printed text of a literal;
  - the ancestor kinds of a node;
  - the connection list of an instance;
  - the nodes of a tree that the syntax visitor reaches, in visit order.
- The `std::regex` engine is left out. Each pattern is a hand-written predicate. Over the
  bytes of a `std::string`, ECMAScript `.` excludes only `\n` and `\r`.
- The LoopsInGenerate traversal is left out. Neither `handle` overload of its syntax
  visitor (tools/tidy/src/style/LoopsInGenerate.cpp:23-25) calls `visitDefault`, so
  nothing below a recorded loop is reached. A loop nested inside another `for` or generate
  loop is never recorded, and the source does not report it. The model's input is the
  list of nodes the visitor reaches, and excluding the nodes below a recorded loop is up to
  whoever builds that list. Fed a tree's full node list, the model would also report a
  nested loop. The pass or fail verdict is the same either way: by `InsideConcat`, an
  inner loop is enclosed whenever its outer loop is.
- The diagnostic engine, its severity lookup and source locations are left out:
  - effective severities are given per diagnostic;
  - a diagnostic is its data, namely the values of its message or the expression or
    location it points at;
  - message rendering and colours are not modelled.
- Command-line parsing, help, version, description printing and every `fmt` output of
  `tidy.cpp` are left out as I/O.
- The `.slang-tidy` configuration search and parsing, the registry and its `REGISTER`
  macro are left out as foreign code. Enabled checks are a list of results, and registered
  checks are a list of name, kind, code and description.
- `SLANG_TRY` is left out because it is an exception path.
- ASTVisitor dispatch is left out. Both `InstanceBodySymbol` handlers and the
  `RootSymbol` handler of LoopsInGenerate are modelled as separate operations. Whether the
  traversal reaches both, and so reports a loop twice, depends on the visitor library,
  which is not part of this model.
- `Tidy.ParseUnsignedLong` reads only leading decimal digits. `std::stoull` also skips
  leading whitespace, accepts a sign and negates a leading `-` modulo 2^64. When
  `std::stoull` throws, the outcome is `InvalidId`, and `ExitStatus` gives no exit status.
- `ConstantWidth.MatchSized`: a width too large for `int` would make `std::stoi` throw.
  The model treats such a width like any width of 64 or more and reports nothing.
- `Tidy.CheckInfo`: the kind type and `tidyKindFromStr` belong to the registry. They are a
  type parameter and a function parameter.
- Diagnostic codes, default severities and descriptions of the checks are catalogue data,
  and no rule decision depends on them.

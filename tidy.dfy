/** The driver of slang-tidy: the loop that runs every enabled check and folds the
    outcomes into a summary and a return code, and the `--code` lookup. Compilation,
    the registry and the diagnostic engine are not modelled: each check is given as the
    record of what it produced. */
module Tidy {
  import opened Wrappers
  import opened Text

  datatype Severity = Ignored | Note | Warning | Error | Fatal

  /** One enabled check after it ran: its name, what `check()` returned, its check-level
      severity and the effective severity of each of its diagnostics. */
  datatype CheckRun = CheckRun(name: string, ok: bool, severity: Severity, diagnosticSeverities: seq<Severity>)

  /** The three tallies of the summary. */
  datatype Bucket = Notes | Warnings | Errors

  predicate InBucket(s: Severity, b: Bucket) {
    match b
    case Notes => s == Note
    case Warnings => s == Warning
    case Errors => s == Error || s == Fatal
  }

  /** What the loop over enabled checks leaves behind. */
  datatype Summary = Summary(retCode: int, totalErrors: nat, totalWarnings: nat, totalNotes: nat,
                             passedChecks: nat, failedChecks: nat, failedRuleNames: seq<string>)

  // ---------------------------------------------------------------------------------
  // Reference definitions of the summary

  /** The diagnostics of a list of severities that fall in a bucket. */
  function Counted(severities: seq<Severity>, b: Bucket): (n: nat)
    ensures n <= |severities|
  {
    if severities == [] then 0
    else Counted(severities[..|severities| - 1], b) + (if InBucket(severities[|severities| - 1], b) then 1 else 0)
  }

  function PassedCount(checks: seq<CheckRun>): (n: nat)
    ensures n <= |checks|
  {
    if checks == [] then 0
    else PassedCount(checks[..|checks| - 1]) + (if checks[|checks| - 1].ok then 1 else 0)
  }

  /** The names of the failed checks, in the order the checks ran. */
  function FailedNames(checks: seq<CheckRun>): (names: seq<string>)
    ensures |names| <= |checks|
  {
    if checks == [] then []
    else FailedNames(checks[..|checks| - 1])
         + (if checks[|checks| - 1].ok then [] else [checks[|checks| - 1].name])
  }

  /** The diagnostics of the failed checks that fall in a bucket. */
  function FailedTally(checks: seq<CheckRun>, b: Bucket): nat {
    if checks == [] then 0
    else FailedTally(checks[..|checks| - 1], b)
         + (if checks[|checks| - 1].ok then 0 else Counted(checks[|checks| - 1].diagnosticSeverities, b))
  }

  predicate FailsRun(c: CheckRun) {
    !c.ok && (c.severity == Error || c.severity == Fatal)
  }

  /** The return code: 1 iff output is not quiet and some failed check has the check-level
      severity Error or Fatal. */
  function RetCode(checks: seq<CheckRun>, quiet: bool): int {
    if !quiet && exists j :: 0 <= j < |checks| && FailsRun(checks[j]) then 1 else 0
  }

  // ---------------------------------------------------------------------------------
  // The loop of `main`

  /** The severity switch over one failed check's diagnostics. */
  method TallySeverities(severities: seq<Severity>) returns (notes: nat, warnings: nat, errors: nat)
    ensures notes == Counted(severities, Notes)
    ensures warnings == Counted(severities, Warnings)
    ensures errors == Counted(severities, Errors)
  {
    notes, warnings, errors := 0, 0, 0;
    for i := 0 to |severities|
      invariant notes == Counted(severities[..i], Notes)
      invariant warnings == Counted(severities[..i], Warnings)
      invariant errors == Counted(severities[..i], Errors)
    {
      assert severities[..i + 1][..i] == severities[..i];
      match severities[i]
      case Note => notes := notes + 1;
      case Warning => warnings := warnings + 1;
      case Error => errors := errors + 1;
      case Fatal => errors := errors + 1;
      case Ignored =>
    }
    assert severities[..|severities|] == severities;
  }

  /** The loop over the enabled checks, in the order the registry enables them. */
  method RunChecks(checks: seq<CheckRun>, quiet: bool) returns (s: Summary)
    ensures s.passedChecks == PassedCount(checks)
    ensures s.failedRuleNames == FailedNames(checks) && s.failedChecks == |s.failedRuleNames|
    ensures s.totalNotes == FailedTally(checks, Notes)
    ensures s.totalWarnings == FailedTally(checks, Warnings)
    ensures s.totalErrors == FailedTally(checks, Errors)
    ensures s.retCode == RetCode(checks, quiet)
  {
    var retCode := 0;
    var totalErrors, totalWarnings, totalNotes := 0, 0, 0;
    var passedChecks, failedChecks := 0, 0;
    var failedRuleNames: seq<string> := [];
    for i := 0 to |checks|
      invariant passedChecks == PassedCount(checks[..i])
      invariant failedRuleNames == FailedNames(checks[..i]) && failedChecks == |failedRuleNames|
      invariant totalNotes == FailedTally(checks[..i], Notes)
      invariant totalWarnings == FailedTally(checks[..i], Warnings)
      invariant totalErrors == FailedTally(checks[..i], Errors)
      invariant retCode == RetCode(checks[..i], quiet)
    {
      var check := checks[i];
      RetCodeStep(checks, i, quiet);
      assert checks[..i + 1][..i] == checks[..i];
      if !check.ok {
        failedChecks := failedChecks + 1;
        failedRuleNames := failedRuleNames + [check.name];
        var notes, warnings, errors := TallySeverities(check.diagnosticSeverities);
        totalNotes := totalNotes + notes;
        totalWarnings := totalWarnings + warnings;
        totalErrors := totalErrors + errors;
        if !quiet {
          if check.severity == Error || check.severity == Fatal {
            retCode := 1;
          }
        }
      } else {
        passedChecks := passedChecks + 1;
      }
    }
    assert checks[..|checks|] == checks;
    s := Summary(retCode, totalErrors, totalWarnings, totalNotes, passedChecks, failedChecks, failedRuleNames);
  }

  /** How one more check moves the return code. */
  lemma RetCodeStep(checks: seq<CheckRun>, i: nat, quiet: bool)
    requires i < |checks|
    ensures RetCode(checks[..i + 1], quiet) == if !quiet && FailsRun(checks[i]) then 1 else RetCode(checks[..i], quiet)
  {
    var p, q := checks[..i], checks[..i + 1];
    assert forall j :: 0 <= j < i ==> q[j] == p[j];
    assert q[i] == checks[i];
  }

  /** The tail of `main` from the compilation: a failed compilation returns 1 before any
      check runs; otherwise the checks run, `--super-quiet` implying `--quiet`. */
  method Run(compilationOk: bool, quietArg: bool, superQuietArg: bool, checks: seq<CheckRun>)
    returns (exitCode: int, summary: Option<Summary>)
    ensures !compilationOk ==> exitCode == 1 && summary.None?
    ensures compilationOk ==> summary.Some? && summary.value.retCode == exitCode
    ensures compilationOk ==> exitCode == RetCode(checks, quietArg || superQuietArg)
    ensures compilationOk && (quietArg || superQuietArg) ==> exitCode == 0
    ensures compilationOk && !quietArg && !superQuietArg ==>
              (exitCode == 1 <==> exists j :: 0 <= j < |checks| && FailsRun(checks[j]))
  {
    var superQuiet := superQuietArg;
    var quiet := quietArg || superQuiet;
    if !compilationOk {
      return 1, None;
    }
    var s := RunChecks(checks, quiet);
    return s.retCode, Some(s);
  }

  // ---------------------------------------------------------------------------------
  // Properties of the summary

  /** Every check is counted once, as passed or as failed. */
  lemma {:induction false} PassedPlusFailed(checks: seq<CheckRun>)
    ensures PassedCount(checks) + |FailedNames(checks)| == |checks|
  {
    if checks != [] {
      PassedPlusFailed(checks[..|checks| - 1]);
    }
  }

  lemma {:induction false} FailedNamesAppend(a: seq<CheckRun>, b: seq<CheckRun>)
    ensures FailedNames(a + b) == FailedNames(a) + FailedNames(b)
    decreases |b|
  {
    if b == [] {
      assert a + b == a;
    } else {
      var c := b[..|b| - 1];
      assert (a + b)[..|a + b| - 1] == a + c;
      assert (a + b)[|a + b| - 1] == b[|b| - 1];
      FailedNamesAppend(a, c);
    }
  }

  /** A name is listed among the failed rules exactly when a check of that name failed. */
  lemma {:induction false} FailedNamesExactly(checks: seq<CheckRun>, name: string)
    ensures name in FailedNames(checks) <==> exists j :: 0 <= j < |checks| && !checks[j].ok && checks[j].name == name
  {
    if checks != [] {
      var n := |checks| - 1;
      var init := checks[..n];
      FailedNamesExactly(init, name);
      if name in FailedNames(init) {
        var j :| 0 <= j < |init| && !init[j].ok && init[j].name == name;
        assert checks[j] == init[j];
      }
      forall j | 0 <= j < |checks| && !checks[j].ok && checks[j].name == name
        ensures name in FailedNames(checks)
      {
        if j < n {
          assert init[j] == checks[j];
        }
      }
    }
  }

  /** Every diagnostic falls in at most one tally; the tallies add up to the number of
      diagnostics exactly when none of them is ignored. */
  lemma {:induction false} TallyPartition(severities: seq<Severity>)
    ensures Counted(severities, Notes) + Counted(severities, Warnings) + Counted(severities, Errors) <= |severities|
    ensures Counted(severities, Notes) + Counted(severities, Warnings) + Counted(severities, Errors) == |severities|
            <==> forall i :: 0 <= i < |severities| ==> severities[i] != Ignored
  {
    if severities != [] {
      var n := |severities| - 1;
      var init := severities[..n];
      TallyPartition(init);
      assert forall i :: 0 <= i < n ==> init[i] == severities[i];
    }
  }

  /** The diagnostics of all checks, passed or failed. */
  function TotalDiagnostics(checks: seq<CheckRun>): nat {
    if checks == [] then 0
    else TotalDiagnostics(checks[..|checks| - 1]) + |checks[|checks| - 1].diagnosticSeverities|
  }

  /** The three tallies never exceed the number of diagnostics. */
  lemma {:induction false} TalliesBounded(checks: seq<CheckRun>)
    ensures FailedTally(checks, Notes) + FailedTally(checks, Warnings) + FailedTally(checks, Errors)
            <= TotalDiagnostics(checks)
  {
    if checks != [] {
      TalliesBounded(checks[..|checks| - 1]);
      TallyPartition(checks[|checks| - 1].diagnosticSeverities);
    }
  }

  lemma {:induction false} FailedTallyAppend(a: seq<CheckRun>, b: seq<CheckRun>, k: Bucket)
    ensures FailedTally(a + b, k) == FailedTally(a, k) + FailedTally(b, k)
    decreases |b|
  {
    if b == [] {
      assert a + b == a;
    } else {
      var c := b[..|b| - 1];
      assert (a + b)[..|a + b| - 1] == a + c;
      assert (a + b)[|a + b| - 1] == b[|b| - 1];
      FailedTallyAppend(a, c, k);
    }
  }

  /** The diagnostics of a passing check are never counted: changing them changes no
      tally. */
  lemma PassingNotCounted(before: seq<CheckRun>, c: CheckRun, d: seq<Severity>, after: seq<CheckRun>, k: Bucket)
    requires c.ok
    ensures FailedTally(before + [c] + after, k) == FailedTally(before + [c.(diagnosticSeverities := d)] + after, k)
  {
    var c' := c.(diagnosticSeverities := d);
    FailedTallyAppend(before + [c], after, k);
    FailedTallyAppend(before, [c], k);
    FailedTallyAppend(before + [c'], after, k);
    FailedTallyAppend(before, [c'], k);
    assert [c][..0] == [] && [c'][..0] == [];
  }

  /** Once a check sets the return code to 1 it stays 1. */
  lemma RetCodeNeverReverts(checks: seq<CheckRun>, k: nat, quiet: bool)
    requires k <= |checks| && RetCode(checks[..k], quiet) == 1
    ensures RetCode(checks, quiet) == 1
  {
    var j :| 0 <= j < k && FailsRun(checks[..k][j]);
    assert checks[j] == checks[..k][j];
  }

  // ---------------------------------------------------------------------------------
  // `--code ABCD-<id>`

  /** A registered check as the lookup sees it: its name, kind, diagnostic code number
      and description. The kind type and its parser belong to the registry. */
  datatype CheckInfo<K> = CheckInfo(name: string, kind: K, code: nat, description: string)

  /** The outcomes of the lookup. `InvalidId` is the case where `stoull` throws. */
  datatype CodeLookup =
    | MalformedCode
    | UnknownKind(kindStr: string)
    | Described(name: string, description: string)
    | UnknownCode(infoCode: string)
    | InvalidId

  /** The exit status `main` returns for an outcome; none when `stoull` throws. */
  function ExitStatus(r: CodeLookup): Option<int> {
    match r
    case Described(_, _) => Some(0)
    case InvalidId => None
    case _ => Some(1)
  }

  /** `std::string::find` for one character. */
  function IndexOf(s: string, c: char): (r: Option<nat>)
    ensures r.Some? ==> r.value < |s| && s[r.value] == c && forall j :: 0 <= j < r.value ==> s[j] != c
    ensures r.None? ==> forall j :: 0 <= j < |s| ==> s[j] != c
  {
    if s == [] then None
    else if s[0] == c then Some(0)
    else match IndexOf(s[1..], c)
      case Some(k) => Some(k + 1)
      case None => None
  }

  const ULLONG_MAX: nat := 0xFFFF_FFFF_FFFF_FFFF

  /** `std::stoull` on text that starts with its digits: their value, or nothing when
      there is no digit or the value does not fit. */
  function ParseUnsignedLong(s: string): (r: Option<nat>)
    ensures r.Some? ==> r.value <= ULLONG_MAX && r.value == DecimalValue(s[..DigitRun(s)])
    ensures r.None? <==> DigitRun(s) == 0 || DecimalValue(s[..DigitRun(s)]) > ULLONG_MAX
  {
    var k := DigitRun(s);
    if k == 0 then None
    else
      var v := DecimalValue(s[..k]);
      if v > ULLONG_MAX then None else Some(v)
  }

  predicate Matches<K(==)>(info: CheckInfo<K>, id: nat, kind: K) {
    info.code == id && info.kind == kind
  }

  /** The first registered check with the given code number and kind. */
  function FirstMatch<K(==)>(registered: seq<CheckInfo<K>>, id: nat, kind: K): (r: Option<nat>)
    ensures r.Some? ==> r.value < |registered| && Matches(registered[r.value], id, kind)
                        && forall j :: 0 <= j < r.value ==> !Matches(registered[j], id, kind)
    ensures r.None? ==> forall j :: 0 <= j < |registered| ==> !Matches(registered[j], id, kind)
  {
    if registered == [] then None
    else if Matches(registered[0], id, kind) then Some(0)
    else match FirstMatch(registered[1..], id, kind)
      case Some(k) => Some(k + 1)
      case None => None
  }

  /** The outcome of `--code` for the given text. */
  function CodeLookupOf<K(==)>(infoCode: string, kindFromStr: string -> Option<K>, registered: seq<CheckInfo<K>>): CodeLookup {
    match IndexOf(infoCode, '-')
    case None => MalformedCode
    case Some(h) =>
      var kindStr := infoCode[..h];
      match ParseUnsignedLong(infoCode[h + 1..])
      case None => InvalidId
      case Some(id) =>
        match kindFromStr(kindStr)
        case None => UnknownKind(kindStr)
        case Some(kind) =>
          match FirstMatch(registered, id, kind)
          case Some(j) => Described(registered[j].name, registered[j].description)
          case None => UnknownCode(infoCode)
  }

  /** The `--code` branch of `main`: split at the first hyphen, parse the kind and the id,
      then search the registered checks in order. */
  method LookupCode<K(==)>(infoCode: string, kindFromStr: string -> Option<K>, registered: seq<CheckInfo<K>>)
    returns (r: CodeLookup)
    ensures r == CodeLookupOf(infoCode, kindFromStr, registered)
  {
    var hyphenPos := IndexOf(infoCode, '-');
    if hyphenPos.None? {
      return MalformedCode;
    }
    var kindStr := infoCode[..hyphenPos.value];
    var kind := kindFromStr(kindStr);
    var id := ParseUnsignedLong(infoCode[hyphenPos.value + 1..]);
    if id.None? {
      return InvalidId;
    }
    if kind.None? {
      return UnknownKind(kindStr);
    }
    for i := 0 to |registered|
      invariant forall j :: 0 <= j < i ==> !Matches(registered[j], id.value, kind.value)
    {
      var check := registered[i];
      if check.code == id.value && check.kind == kind.value {
        return Described(check.name, check.description);
      }
    }
    return UnknownCode(infoCode);
  }

  /** The outcomes of `--code`: a malformed code, an unknown kind and an unknown code exit
      with 1; the first check matching both kind and code number is described and the exit
      status is 0. */
  lemma CodeLookupOutcomes<K>(infoCode: string, kindFromStr: string -> Option<K>, registered: seq<CheckInfo<K>>)
    ensures var r := CodeLookupOf(infoCode, kindFromStr, registered);
            ('-' !in infoCode <==> r == MalformedCode)
            && (r.UnknownKind? ==> r.kindStr == infoCode[..|r.kindStr|] && '-' !in r.kindStr
                                   && kindFromStr(r.kindStr).None?)
            && (r.Described? ==> exists j :: 0 <= j < |registered| && registered[j].name == r.name
                                   && registered[j].description == r.description
                                   && kindFromStr(infoCode[..IndexOf(infoCode, '-').value]) == Some(registered[j].kind)
                                   && ParseUnsignedLong(infoCode[IndexOf(infoCode, '-').value + 1..]) == Some(registered[j].code))
            && (ExitStatus(r) == Some(0) <==> r.Described?)
  {
    var r := CodeLookupOf(infoCode, kindFromStr, registered);
    match IndexOf(infoCode, '-')
    case None =>
    case Some(h) =>
      assert infoCode[h] == '-';
      if r.UnknownKind? {
        assert r.kindStr == infoCode[..h];
      }
      if r.Described? {
        var id := ParseUnsignedLong(infoCode[h + 1..]).value;
        var kind := kindFromStr(infoCode[..h]).value;
        var j := FirstMatch(registered, id, kind).value;
        assert registered[j].name == r.name;
      }
  }

  /** When some registered check matches, the lookup describes the first one. */
  lemma FirstMatchDescribed<K>(infoCode: string, kindFromStr: string -> Option<K>, registered: seq<CheckInfo<K>>,
                                   h: nat, id: nat, kind: K, j: nat)
    requires h < |infoCode| && infoCode[h] == '-' && '-' !in infoCode[..h]
    requires ParseUnsignedLong(infoCode[h + 1..]) == Some(id) && kindFromStr(infoCode[..h]) == Some(kind)
    requires j < |registered| && Matches(registered[j], id, kind)
    requires forall i :: 0 <= i < j ==> !Matches(registered[i], id, kind)
    ensures CodeLookupOf(infoCode, kindFromStr, registered) == Described(registered[j].name, registered[j].description)
  {
    assert forall i :: 0 <= i < h ==> infoCode[i] == infoCode[..h][i];
    var r := FirstMatch(registered, id, kind);
    assert r.Some? && r.value == j;
  }
}

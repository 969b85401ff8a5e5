/** The DefaultNettypeNone rule: every source file must contain the directive
    `` `default_nettype `` followed, after only spaces and tabs, by `none`, with `none`
    starting fewer than 20 characters after the directive. The file's text is an input. */
module DefaultNettype {
  import opened Wrappers
  import opened Seqs

  const Directive: string := "`default_nettype"
  const Argument: string := "none"
  /** The distance window: `none` must start fewer than this many characters after the
      start of the directive. */
  const Window: nat := 20

  predicate OccursAt(text: string, pat: string, p: nat) {
    p + |pat| <= |text| && text[p..p + |pat|] == pat
  }

  /** `std::string_view::find`: the first occurrence of `pat` at or after `from`. */
  function Find(text: string, pat: string, from: nat): (r: Option<nat>)
    requires |pat| > 0
    ensures r.Some? ==> from <= r.value && OccursAt(text, pat, r.value)
    ensures r.Some? ==> forall q :: from <= q < r.value ==> !OccursAt(text, pat, q)
    ensures r.None? ==> forall q :: from <= q ==> !OccursAt(text, pat, q)
    decreases |text| - from
  {
    if from + |pat| > |text| then None
    else if text[from..from + |pat|] == pat then Some(from)
    else Find(text, pat, from + 1)
  }

  /** The characters `checkSyntaxTree` accepts between the directive and its argument. */
  predicate IsBlank(c: char) {
    c == ' ' || c == '\t'
  }

  /** An occurrence of the directive at `p` satisfies the rule: the first `none` at or
      after `p` starts within the window, and only blanks separate the two. */
  predicate Qualifies(text: string, p: nat) {
    match Find(text, Argument, p)
    case None => false
    case Some(np) => np - p < Window && forall i :: p + |Directive| <= i < np ==> IsBlank(text[i])
  }

  /** The verdict for one file. */
  predicate Passes(text: string) {
    exists p :: 0 <= p <= |text| && OccursAt(text, Directive, p) && Qualifies(text, p)
  }

  /** `none` cannot start inside the directive itself, so the gap between them is
      well-defined. */
  lemma ArgumentAfterDirective(text: string, p: nat, q: nat)
    requires OccursAt(text, Directive, p) && OccursAt(text, Argument, q) && p <= q
    ensures p + |Directive| <= q
  {
    assert text[q] == 'n' && text[q + 1] == 'o' by {
      assert text[q..q + |Argument|] == Argument;
    }
    assert forall k :: p <= k < p + |Directive| ==> text[k] == Directive[k - p] by {
      assert text[p..p + |Directive|] == Directive;
    }
    assert forall k :: 0 <= k < |Directive| && Directive[k] == 'n' ==> k == 9;
  }

  /** The inner loop of `checkSyntaxTree`: whether the gap holds only spaces and tabs. */
  method OnlyBlanks(between: string) returns (onlyWhitespace: bool)
    ensures onlyWhitespace == forall i :: 0 <= i < |between| ==> IsBlank(between[i])
  {
    onlyWhitespace := true;
    for i := 0 to |between|
      invariant forall j :: 0 <= j < i ==> IsBlank(between[j])
    {
      var c := between[i];
      if c != ' ' && c != '\t' {
        onlyWhitespace := false;
        break;
      }
    }
  }

  /** The text scan of `checkSyntaxTree`: visit the occurrences of the directive left to
      right and stop at the first that qualifies. */
  method HasDefaultNettypeNone(text: string) returns (hasDefaultNettypeNone: bool)
    ensures hasDefaultNettypeNone == Passes(text)
  {
    hasDefaultNettypeNone := false;
    var pos := Find(text, Directive, 0);
    while pos.Some?
      invariant pos.Some? ==> OccursAt(text, Directive, pos.value)
      invariant forall q :: OccursAt(text, Directive, q) && (pos.None? || q < pos.value)
                  ==> !Qualifies(text, q)
      decreases if pos.Some? then |text| + 1 - pos.value else 0
    {
      var p := pos.value;
      var nonePos := Find(text, Argument, p);
      if nonePos.Some? && nonePos.value - p < Window {
        ArgumentAfterDirective(text, p, nonePos.value);
        var between := text[p + |Directive|..nonePos.value];
        var onlyWhitespace := OnlyBlanks(between);
        assert onlyWhitespace == forall i :: p + |Directive| <= i < nonePos.value ==> IsBlank(text[i]) by {
          assert forall i :: p + |Directive| <= i < nonePos.value ==> text[i] == between[i - p - |Directive|];
        }
        if onlyWhitespace {
          hasDefaultNettypeNone := true;
          break;
        }
      }
      pos := Find(text, Directive, p + 1);
    }
  }

  /** A syntax tree: the text of its buffer and the location of its root's start. */
  datatype SourceFile = SourceFile(text: string, start: nat)

  /** The start locations of the files that fail, in order: one diagnostic each. */
  function FailingStarts(files: seq<SourceFile>): (r: seq<nat>)
    ensures |r| <= |files|
  {
    if files == [] then []
    else FileDiagnostics(files[0]) + FailingStarts(files[1..])
  }

  /** The diagnostic one file yields: none when it passes, else one at the start of its root. */
  function FileDiagnostics(f: SourceFile): seq<nat>
  {
    if Passes(f.text) then [] else [f.start]
  }

  /** `handle(RootSymbol)`: every syntax tree of the compilation is scanned. */
  method CheckTrees(files: seq<SourceFile>) returns (diagnostics: seq<nat>)
    ensures diagnostics == FailingStarts(files)
  {
    diagnostics := [];
    for i := 0 to |files|
      invariant diagnostics + FailingStarts(files[i..]) == FailingStarts(files)
    {
      assert files[i..][1..] == files[i + 1..];
      ghost var rest := FailingStarts(files[i + 1..]);
      assert FailingStarts(files[i..]) == FileDiagnostics(files[i]) + rest;
      var ok := HasDefaultNettypeNone(files[i].text);
      ghost var before := diagnostics;
      if !ok {
        diagnostics := diagnostics + [files[i].start];
      }
      assert diagnostics == before + FileDiagnostics(files[i]);
      ConcatAssoc(before, FileDiagnostics(files[i]), rest);
    }
    assert files[|files|..] == [];
  }

  // ---------------------------------------------------------------------------------
  // Properties of the rule

  /** An occurrence at or after `from` is found, and the answer is no later than it. */
  lemma FindReaches(text: string, pat: string, from: nat, q: nat)
    requires |pat| > 0 && from <= q && OccursAt(text, pat, q)
    ensures Find(text, pat, from).Some? && Find(text, pat, from).value <= q
  {
  }

  /** The window leaves room for at most three blanks between directive and argument. */
  lemma GapAtMostThree(text: string, p: nat)
    requires OccursAt(text, Directive, p) && Qualifies(text, p)
    ensures Find(text, Argument, p).Some?
    ensures p + |Directive| <= Find(text, Argument, p).value <= p + |Directive| + 3
  {
    ArgumentAfterDirective(text, p, Find(text, Argument, p).value);
  }

  /** A string occurs in a concatenation where it was placed. */
  lemma OccursInMiddle(a: string, b: string, c: string)
    ensures OccursAt(a + b + c, b, |a|)
  {
    assert (a + b + c)[|a|..|a| + |b|] == b;
  }

  /** The first `none` after a directive that is followed by a gap free of `n` is the one
      after the gap. */
  lemma ArgumentAfterGap(text: string, pre: string, gap: string, post: string)
    requires text == pre + Directive + gap + Argument + post
    requires forall i :: 0 <= i < |gap| ==> gap[i] != 'n'
    ensures OccursAt(text, Directive, |pre|)
    ensures Find(text, Argument, |pre|) == Some(|pre| + |Directive| + |gap|)
  {
    var p, np := |pre|, |pre| + |Directive| + |gap|;
    PiecesInPlace(text, pre, gap, post);
    NoArgumentInGap(text, pre + Directive, gap, Argument + post);
    FindReaches(text, Argument, p, np);
    ArgumentAfterDirective(text, p, Find(text, Argument, p).value);
  }

  lemma PiecesInPlace(text: string, pre: string, gap: string, post: string)
    requires text == pre + Directive + gap + Argument + post
    ensures OccursAt(text, Directive, |pre|)
    ensures OccursAt(text, Argument, |pre| + |Directive| + |gap|)
  {
    OccursInMiddle(pre, Directive, gap + Argument + post);
    assert pre + Directive + (gap + Argument + post) == text;
    OccursInMiddle(pre + Directive + gap, Argument, post);
  }

  lemma NoArgumentInGap(text: string, head: string, gap: string, rest: string)
    requires text == head + gap + rest
    requires forall i :: 0 <= i < |gap| ==> gap[i] != 'n'
    ensures forall q: nat :: |head| <= q < |head| + |gap| ==> !OccursAt(text, Argument, q)
  {
    forall q: nat | |head| <= q < |head| + |gap|
      ensures !OccursAt(text, Argument, q)
    {
      assert text[q] == gap[q - |head|];
    }
  }

  /** The accepted form: the directive, at most three blanks and `none`, anywhere in the
      file, makes the file pass. */
  lemma DirectiveThenNonePasses(text: string, pre: string, gap: string, post: string)
    requires text == pre + Directive + gap + Argument + post
    requires |gap| <= 3 && forall i :: 0 <= i < |gap| ==> IsBlank(gap[i])
    ensures Passes(text)
  {
    var p := |pre|;
    ArgumentAfterGap(text, pre, gap, post);
    var head, tail := pre + Directive, gap + Argument + post;
    assert head + tail == text;
    assert forall i :: p + |Directive| <= i < p + |Directive| + |gap| ==> text[i] == tail[i - |head|] == gap[i - |head|];
    assert Qualifies(text, p);
  }

  /** Anything but blanks between the directive and `none` (a newline, say) disqualifies
      that occurrence of the directive. */
  lemma NonBlankGapDisqualifies(text: string, pre: string, gap: string, post: string, k: nat)
    requires text == pre + Directive + gap + Argument + post
    requires forall i :: 0 <= i < |gap| ==> gap[i] != 'n'
    requires k < |gap| && !IsBlank(gap[k])
    ensures !Qualifies(text, |pre|)
  {
    ArgumentAfterGap(text, pre, gap, post);
    var head, tail := pre + Directive, gap + Argument + post;
    assert head + tail == text;
    assert text[|head| + k] == tail[k] == gap[k];
  }

  /** A file without the argument `none` anywhere fails. */
  lemma NoArgumentFails(text: string)
    requires forall q :: !OccursAt(text, Argument, q)
    ensures !Passes(text)
  {
  }

  /** A file without the directive fails. */
  lemma NoDirectiveFails(text: string)
    requires forall p :: !OccursAt(text, Directive, p)
    ensures !Passes(text)
  {
  }

  /** `` `default_nettype wire `` does not satisfy the rule. */
  lemma OtherArgumentFails()
    ensures !Passes(Directive + " wire")
  {
    var text := Directive + " wire";
    assert OccursAt(text, Directive, 0) by {
      assert text[..|Directive|] == Directive;
    }
    assert forall k :: 0 <= k < |text| && text[k] == 'n' ==> k == 9;
    forall q: nat
      ensures !OccursAt(text, Argument, q)
    {
      if q + |Argument| <= |text| && text[q] == 'n' {
        assert text[q + 1] == 'e';
        assert text[q..q + |Argument|][1] == 'e';
      }
    }
    NoArgumentFails(text);
  }

  /** `` `default_nettype none `` satisfies the rule. */
  lemma ArgumentNonePasses()
    ensures Passes(Directive + " " + Argument)
  {
    DirectiveThenNonePasses(Directive + " " + Argument, "", " ", "");
  }

  /** Files are judged independently: the diagnostics for two lists of files are the
      diagnostics for each, in order. */
  lemma {:induction false} FailingStartsAppend(a: seq<SourceFile>, b: seq<SourceFile>)
    ensures FailingStarts(a + b) == FailingStarts(a) + FailingStarts(b)
  {
    if a == [] {
      assert a + b == b;
    } else {
      assert (a + b)[0] == a[0];
      assert (a + b)[1..] == a[1..] + b;
      FailingStartsAppend(a[1..], b);
      ConcatAssoc(FileDiagnostics(a[0]), FailingStarts(a[1..]), FailingStarts(b));
    }
  }

  /** One diagnostic per failing file, at the start of its root. */
  lemma {:induction false} FailingStartsExactly(files: seq<SourceFile>, s: nat)
    ensures s in FailingStarts(files) <==>
            exists i :: 0 <= i < |files| && files[i].start == s && !Passes(files[i].text)
  {
    if files != [] {
      FailingStartsExactly(files[1..], s);
      if s in FailingStarts(files[1..]) {
        var i :| 0 <= i < |files[1..]| && files[1..][i].start == s && !Passes(files[1..][i].text);
        assert files[i + 1] == files[1..][i];
      }
      forall i | 0 <= i < |files| && files[i].start == s && !Passes(files[i].text)
        ensures s in FailingStarts(files)
      {
        if i > 0 {
          assert files[1..][i - 1] == files[i];
        }
      }
    }
  }

  /** The check passes exactly when every file passes. */
  lemma {:induction false} CheckPassesIff(files: seq<SourceFile>)
    ensures FailingStarts(files) == [] <==> forall i :: 0 <= i < |files| ==> Passes(files[i].text)
  {
    if files != [] {
      CheckPassesIff(files[1..]);
      assert forall i :: 1 <= i < |files| ==> files[i] == files[1..][i - 1];
    }
  }
}

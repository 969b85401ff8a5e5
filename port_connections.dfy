/** The NoLogicInPortConnections rule: the expression connected to a named port of an
    instance may be a name, a literal, a select, a member access or a concatenation of
    simple operands; anything else is logic and is reported against the port. */
module PortConnections {
  import opened Wrappers
  import opened Seqs
  import opened Syntax

  /** An expression node: its kind and, for a concatenation, its direct elements. */
  datatype Expression = Expression(kind: SyntaxKind, elements: seq<Expression>)

  /** The sequence-expression layer of the port's property: only the simple form holds a
      plain expression. */
  datatype SequenceExpr = SimpleSequence(expr: Expression) | OtherSequence(kind: SyntaxKind)

  /** The property-expression layer the parser wraps every connection expression in. */
  datatype PropertyExpr = SimpleProperty(sequence: SequenceExpr) | OtherProperty(kind: SyntaxKind)

  /** `.name(expr)`: whether the parenthesis is present, and the expression if any. */
  datatype NamedPortConnection = NamedPortConnection(name: string, openParen: bool, expr: Option<PropertyExpr>)

  /** A connection found to hold logic. */
  datatype LogicPort = LogicPort(expr: Expression, portName: string)

  /** A diagnostic: the expression it points at and its message. */
  datatype PortDiagnostic = PortDiagnostic(location: Expression, message: string)

  /** The plain expression of a simple sequence; any other sequence holds none. */
  function ExtractExpressionFromSequence(sequence: SequenceExpr): Option<Expression>
  {
    match sequence
    case SimpleSequence(expr) => Some(expr)
    case OtherSequence(_) => None
  }

  /** The plain expression of a simple property over a simple sequence. */
  function ExtractExpressionFromProperty(property: PropertyExpr): Option<Expression>
  {
    match property
    case SimpleProperty(sequence) => ExtractExpressionFromSequence(sequence)
    case OtherProperty(_) => None
  }

  predicate IsIdentifierLike(kind: SyntaxKind) {
    kind == IdentifierName || kind == IdentifierSelectName || kind == EmptyIdentifierName
  }

  /** The kinds a concatenation's elements may have. */
  predicate IsAllowedInPortConnection(kind: SyntaxKind) {
    IsIdentifierLike(kind) || kind == IntegerLiteralExpression || kind == IntegerVectorExpression
    || kind == UnbasedUnsizedLiteralExpression || kind == NullLiteralExpression
    || kind == TimeLiteralExpression || kind == WildcardLiteralExpression
    || kind == ElementSelectExpression || kind == BitSelect || kind == BitType
  }

  const LiteralKinds: set<SyntaxKind> :=
    {IntegerLiteralExpression, IntegerVectorExpression, RealLiteralExpression, StringLiteralExpression,
     UnbasedUnsizedLiteralExpression, NullLiteralExpression, TimeLiteralExpression, WildcardLiteralExpression}

  const SelectKinds: set<SyntaxKind> := {ElementSelectExpression, IdentifierSelectName, BitSelect, BitType}

  /** The kinds accepted at the top of a connection without looking inside. */
  predicate AcceptedAtTop(kind: SyntaxKind) {
    IsIdentifierLike(kind) || kind in LiteralKinds || kind in SelectKinds || kind == MemberAccessExpression
  }

  /** A concatenation whose every direct element has an allowed kind. */
  predicate IsSimpleConcatenation(e: Expression) {
    e.kind == ConcatenationExpression
    && forall i :: 0 <= i < |e.elements| ==> IsAllowedInPortConnection(e.elements[i].kind)
  }

  /** What `checkExpression` considers logic. */
  predicate IsLogic(e: Expression) {
    !AcceptedAtTop(e.kind) && !IsSimpleConcatenation(e)
  }

  /** The finding one connection contributes. */
  function FindingsOf(port: NamedPortConnection): (r: seq<LogicPort>)
    ensures |r| <= 1
    ensures r != [] ==> port.openParen && port.expr.Some?
                        && ExtractExpressionFromProperty(port.expr.value).Some?
                        && r == [LogicPort(ExtractExpressionFromProperty(port.expr.value).value, port.name)]
  {
    if port.openParen && port.expr.Some? then
      match ExtractExpressionFromProperty(port.expr.value)
      case Some(e) => if IsLogic(e) then [LogicPort(e, port.name)] else []
      case None => []
    else []
  }

  /** The findings of the connections of one instance, in visit order. */
  function Findings(ports: seq<NamedPortConnection>): (r: seq<LogicPort>)
    ensures |r| <= |ports|
  {
    if ports == [] then [] else Findings(ports[..|ports| - 1]) + FindingsOf(ports[|ports| - 1])
  }

  /** The loop over a concatenation's elements in `checkExpression`. */
  method AllElementsAllowed(elements: seq<Expression>) returns (allSimple: bool)
    ensures allSimple == forall i :: 0 <= i < |elements| ==> IsAllowedInPortConnection(elements[i].kind)
  {
    allSimple := true;
    for i := 0 to |elements|
      invariant forall j :: 0 <= j < i ==> IsAllowedInPortConnection(elements[j].kind)
    {
      if !IsAllowedInPortConnection(elements[i].kind) {
        allSimple := false;
        break;
      }
    }
  }

  /** The syntax visitor that runs over one instance body and collects findings. */
  class PortConnectionVisitor {
    var foundPorts: seq<LogicPort>

    constructor ()
      ensures foundPorts == []
    {
      foundPorts := [];
    }

    method Handle(port: NamedPortConnection)
      modifies this
      ensures foundPorts == old(foundPorts) + FindingsOf(port)
    {
      if port.openParen && port.expr.Some? {
        var expr := ExtractExpressionFromProperty(port.expr.value);
        if expr.Some? {
          CheckExpression(expr.value, port.name);
        }
      }
    }

    method CheckExpression(expr: Expression, portName: string)
      modifies this
      ensures foundPorts == old(foundPorts) + (if IsLogic(expr) then [LogicPort(expr, portName)] else [])
    {
      var kind := expr.kind;
      if IsIdentifierLike(kind) {
        return;
      }
      if kind in LiteralKinds {
        return;
      }
      if kind in SelectKinds {
        return;
      }
      if kind == MemberAccessExpression {
        return;
      }
      if kind == ConcatenationExpression {
        var allSimple := AllElementsAllowed(expr.elements);
        if allSimple {
          return;
        }
      }
      foundPorts := foundPorts + [LogicPort(expr, portName)];
    }
  }

  function Message(portName: string): string {
    "logic expression in port connection '" + portName + "'"
    + " (move logic outside the port instantiation for Quartus compatibility)"
  }

  /** A finding's diagnostic points at the offending expression, and its message quotes
      the port's name right after the fixed prefix. */
  function DiagnosticOf(port: LogicPort): (d: PortDiagnostic)
    ensures d.location == port.expr
    ensures |d.message| > 37 + |port.portName|
    ensures d.message[..37] == "logic expression in port connection '"
    ensures d.message[37..37 + |port.portName|] == port.portName
    ensures d.message[37 + |port.portName|] == '\''
  {
    MessageNamesPort(port.portName);
    PortDiagnostic(port.expr, Message(port.portName))
  }

  /** One diagnostic per finding, in order. */
  function Diagnostics(found: seq<LogicPort>): (ds: seq<PortDiagnostic>)
    ensures |ds| == |found|
  {
    seq(|found|, i requires 0 <= i < |found| => DiagnosticOf(found[i]))
  }

  lemma DiagnosticsAppend(a: seq<LogicPort>, b: seq<LogicPort>)
    ensures Diagnostics(a + b) == Diagnostics(a) + Diagnostics(b)
  {
    var l, r := Diagnostics(a + b), Diagnostics(a) + Diagnostics(b);
    forall i | 0 <= i < |a + b|
      ensures l[i] == r[i]
    {
      if i < |a| {
        assert (a + b)[i] == a[i];
      } else {
        assert (a + b)[i] == b[i - |a|];
      }
    }
  }

  /** `MainVisitor::handle(InstanceBodySymbol)` for a body with syntax: collect the
      findings of its connections, then report one diagnostic per finding. */
  method CheckInstanceBody(ports: seq<NamedPortConnection>) returns (diagnostics: seq<PortDiagnostic>)
    ensures diagnostics == Diagnostics(Findings(ports))
  {
    var visitor := new PortConnectionVisitor();
    for i := 0 to |ports|
      invariant visitor.foundPorts == Findings(ports[..i])
    {
      visitor.Handle(ports[i]);
      assert ports[..i + 1][..i] == ports[..i];
    }
    assert ports[..|ports|] == ports;
    diagnostics := Report(visitor.foundPorts);
  }

  /** The reporting loop of `handle(InstanceBodySymbol)`: one diagnostic per finding. */
  method Report(found: seq<LogicPort>) returns (diagnostics: seq<PortDiagnostic>)
    ensures diagnostics == Diagnostics(found)
  {
    diagnostics := [];
    for i := 0 to |found|
      invariant diagnostics == Diagnostics(found[..i])
    {
      DiagnosticsAppend(found[..i], [found[i]]);
      assert found[..i + 1] == found[..i] + [found[i]];
      diagnostics := diagnostics + [PortDiagnostic(found[i].expr, Message(found[i].portName))];
    }
    assert found[..|found|] == found;
  }

  /** An instance body as the root visitor meets it: whether the configuration skips it,
      and its named port connections in visit order when it has syntax. */
  datatype InstanceBody = InstanceBody(skipped: bool, connections: Option<seq<NamedPortConnection>>)

  function BodyFindings(body: InstanceBody): seq<LogicPort> {
    if body.skipped || body.connections.None? then [] else Findings(body.connections.value)
  }

  /** The findings of every instance body, in visit order. */
  function RootFindings(bodies: seq<InstanceBody>): (r: seq<LogicPort>)
  {
    if bodies == [] then [] else RootFindings(bodies[..|bodies| - 1]) + BodyFindings(bodies[|bodies| - 1])
  }

  /** `check`: visit every instance body; the check passes iff nothing was reported. */
  method Check(bodies: seq<InstanceBody>) returns (ok: bool, diagnostics: seq<PortDiagnostic>)
    ensures diagnostics == Diagnostics(RootFindings(bodies))
    ensures ok <==> RootFindings(bodies) == []
  {
    diagnostics := [];
    for i := 0 to |bodies|
      invariant diagnostics == Diagnostics(RootFindings(bodies[..i]))
    {
      assert bodies[..i + 1][..i] == bodies[..i];
      var body := bodies[i];
      DiagnosticsAppend(RootFindings(bodies[..i]), BodyFindings(body));
      if !body.skipped && body.connections.Some? {
        var more := CheckInstanceBody(body.connections.value);
        diagnostics := diagnostics + more;
      } else {
        assert Diagnostics(BodyFindings(body)) == [];
      }
    }
    assert bodies[..|bodies|] == bodies;
    ok := diagnostics == [];
  }

  // ---------------------------------------------------------------------------------
  // Properties of the rule

  /** A connection is reported exactly when it has a parenthesis and an expression, the
      expression is wrapped as a simple property of a simple sequence, and it is logic. */
  lemma ConnectionReportedIff(port: NamedPortConnection)
    ensures FindingsOf(port) != [] <==>
            port.openParen && port.expr.Some? && port.expr.value.SimpleProperty?
            && port.expr.value.sequence.SimpleSequence? && IsLogic(port.expr.value.sequence.expr)
  {
  }

  /** Names, the eight literal kinds, selects, `BitType` and member access are never
      reported, whatever they contain. */
  lemma TopLevelKindsAccepted(e: Expression)
    requires e.kind in {IdentifierName, IdentifierSelectName, EmptyIdentifierName,
                        IntegerLiteralExpression, IntegerVectorExpression, RealLiteralExpression,
                        StringLiteralExpression, UnbasedUnsizedLiteralExpression, NullLiteralExpression,
                        TimeLiteralExpression, WildcardLiteralExpression, ElementSelectExpression,
                        BitSelect, BitType, MemberAccessExpression}
    ensures !IsLogic(e)
  {
  }

  /** A concatenation is logic exactly when one of its direct elements has a kind outside
      the allow list. */
  lemma ConcatenationRule(e: Expression)
    requires e.kind == ConcatenationExpression
    ensures IsLogic(e) <==> exists i :: 0 <= i < |e.elements| && !IsAllowedInPortConnection(e.elements[i].kind)
  {
  }

  /** The allow list for elements is narrower than the top-level list: real and string
      literals, member access and nested concatenations are accepted only on their own. */
  lemma AllowListNarrower(k: SyntaxKind)
    ensures IsAllowedInPortConnection(k) ==> AcceptedAtTop(k)
    ensures k in {RealLiteralExpression, StringLiteralExpression, MemberAccessExpression, ConcatenationExpression}
            ==> !IsAllowedInPortConnection(k)
  {
  }

  /** Nothing below the top level, beyond a concatenation's direct elements' kinds, is
      inspected. */
  lemma OnlyTopLevelInspected(e1: Expression, e2: Expression)
    requires e1.kind == e2.kind && |e1.elements| == |e2.elements|
    requires forall i :: 0 <= i < |e1.elements| ==> e1.elements[i].kind == e2.elements[i].kind
    ensures IsLogic(e1) == IsLogic(e2)
  {
  }

  lemma {:induction false} FindingsAppend(a: seq<NamedPortConnection>, b: seq<NamedPortConnection>)
    ensures Findings(a + b) == Findings(a) + Findings(b)
    decreases |b|
  {
    if b == [] {
      assert a + b == a;
    } else {
      var c := b[..|b| - 1];
      assert (a + b)[..|a + b| - 1] == a + c;
      assert (a + b)[|a + b| - 1] == b[|b| - 1];
      FindingsAppend(a, c);
      ConcatAssoc(Findings(a), Findings(c), FindingsOf(b[|b| - 1]));
    }
  }

  /** Each finding comes from one connection and carries that connection's name. */
  lemma {:induction false} FindingsNamePorts(ports: seq<NamedPortConnection>, k: nat)
    requires k < |Findings(ports)|
    ensures exists j :: (0 <= j < |ports| && FindingsOf(ports[j]) == [Findings(ports)[k]]
                         && Findings(ports)[k].portName == ports[j].name)
  {
    var n := |ports| - 1;
    var init := ports[..n];
    if k < |Findings(init)| {
      FindingsNamePorts(init, k);
      var j :| 0 <= j < |init| && FindingsOf(init[j]) == [Findings(init)[k]]
               && Findings(init)[k].portName == init[j].name;
      assert ports[j] == init[j];
    } else {
      assert Findings(ports)[k] == FindingsOf(ports[n])[0];
    }
  }

  /** An instance body has no finding exactly when none of its connections has one. */
  lemma {:induction false} FindingsEmptyIff(ports: seq<NamedPortConnection>)
    ensures Findings(ports) == [] <==> NoneReported(ports)
  {
    if ports != [] {
      var n := |ports| - 1;
      FindingsEmptyIff(ports[..n]);
      NoneReportedSplit(ports, ports[..n]);
    }
  }

  /** No connection of the list is reported. */
  predicate NoneReported(ports: seq<NamedPortConnection>) {
    forall j :: 0 <= j < |ports| ==> FindingsOf(ports[j]) == []
  }

  lemma NoneReportedSplit(ports: seq<NamedPortConnection>, init: seq<NamedPortConnection>)
    requires ports != [] && init == ports[..|ports| - 1]
    ensures NoneReported(ports) <==> NoneReported(init) && FindingsOf(ports[|ports| - 1]) == []
  {
    assert forall j :: 0 <= j < |init| ==> init[j] == ports[j];
  }

  /** No connection of the body is reported, or the body is not visited at all. */
  predicate BodyClean(body: InstanceBody) {
    body.skipped || body.connections.None?
    || NoneReported(body.connections.value)
  }

  /** A visited instance body has no finding exactly when none of its connections is
      reported. */
  lemma BodyFindingsEmptyIff(body: InstanceBody)
    ensures BodyFindings(body) == [] <==> BodyClean(body)
  {
    if !body.skipped && body.connections.Some? {
      FindingsEmptyIff(body.connections.value);
    }
  }

  /** The check passes exactly when no visited instance body has a finding. */
  lemma {:induction false} CheckPassesIff(bodies: seq<InstanceBody>)
    ensures RootFindings(bodies) == [] <==> forall i :: 0 <= i < |bodies| ==> BodyFindings(bodies[i]) == []
  {
    if bodies != [] {
      var n := |bodies| - 1;
      CheckPassesIff(bodies[..n]);
      assert RootFindings(bodies) == RootFindings(bodies[..n]) + BodyFindings(bodies[n]);
      AllBodiesSplit(bodies, bodies[..n]);
    }
  }

  lemma AllBodiesSplit(bodies: seq<InstanceBody>, init: seq<InstanceBody>)
    requires bodies != [] && init == bodies[..|bodies| - 1]
    ensures (forall i :: 0 <= i < |bodies| ==> BodyFindings(bodies[i]) == [])
            <==> (forall i :: 0 <= i < |init| ==> BodyFindings(init[i]) == [])
                 && BodyFindings(bodies[|bodies| - 1]) == []
  {
    assert forall i :: 0 <= i < |init| ==> init[i] == bodies[i];
  }

  /** `.I0(~a | b)` is reported. */
  lemma LogicConnectionReported()
    ensures var e := Expression(BinaryOrExpression, []);
            Findings([NamedPortConnection("I0", true, Some(SimpleProperty(SimpleSequence(e))))])
            == [LogicPort(e, "I0")]
  {
    var e := Expression(BinaryOrExpression, []);
    var port := NamedPortConnection("I0", true, Some(SimpleProperty(SimpleSequence(e))));
    assert [port][..0] == [];
    assert FindingsOf(port) == [LogicPort(e, "I0")];
  }

  /** Every message names its port, between quotes after a fixed prefix. */
  lemma MessageNamesPort(portName: string)
    ensures Message(portName)[..37] == "logic expression in port connection '"
    ensures Message(portName)[37..37 + |portName|] == portName
    ensures Message(portName)[37 + |portName|] == '\''
  {
    var prefix := "logic expression in port connection '";
    var rest := "'" + " (move logic outside the port instantiation for Quartus compatibility)";
    assert |prefix| == 37;
    var m := prefix + portName + rest;
    assert Message(portName) == m;
    assert m[..37] == prefix;
    assert m[37..37 + |portName|] == portName;
    assert m[37 + |portName|] == rest[0];
  }

  /** `.O({a, b})` and `.I(1'b1)` are not reported. */
  lemma SimpleConnectionsAccepted()
    ensures var concat := Expression(ConcatenationExpression, [Expression(IdentifierName, []), Expression(IdentifierName, [])]);
            var port := NamedPortConnection("O", true, Some(SimpleProperty(SimpleSequence(concat))));
            Findings([port]) == []
    ensures var literal := Expression(IntegerVectorExpression, []);
            var port := NamedPortConnection("I", true, Some(SimpleProperty(SimpleSequence(literal))));
            Findings([port]) == []
  {
    var concat := Expression(ConcatenationExpression, [Expression(IdentifierName, []), Expression(IdentifierName, [])]);
    assert IsSimpleConcatenation(concat);
    var port := NamedPortConnection("O", true, Some(SimpleProperty(SimpleSequence(concat))));
    assert [port][..0] == [];
    var port2 := NamedPortConnection("I", true, Some(SimpleProperty(SimpleSequence(Expression(IntegerVectorExpression, [])))));
    assert [port2][..0] == [];
  }

  /** A concatenation nesting another concatenation is reported. */
  lemma NestedConcatenationReported()
    ensures IsLogic(Expression(ConcatenationExpression,
                               [Expression(IdentifierName, []), Expression(ConcatenationExpression, [])]))
  {
    var e := Expression(ConcatenationExpression, [Expression(IdentifierName, []), Expression(ConcatenationExpression, [])]);
    assert !IsAllowedInPortConnection(e.elements[1].kind);
  }
}

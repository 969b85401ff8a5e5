/** The LoopsInGenerate rule: a `for` loop, procedural or generate, must sit inside a
    generate region, a generate block or a procedural block. */
module LoopsInGenerate {
  import opened Wrappers
  import opened Seqs
  import opened Syntax

  /** A syntax node as the rule sees it: its kind, the kinds of its parents from the
      nearest up to the root, and the location of its keyword. */
  datatype Node = Node(kind: SyntaxKind, parents: seq<SyntaxKind>, location: nat)

  /** The kinds on the chain from the node itself to the root. */
  function Chain(n: Node): (c: seq<SyntaxKind>)
    ensures |c| == |n.parents| + 1 && c[0] == n.kind && c[1..] == n.parents
  {
    [n.kind] + n.parents
  }

  /** The kinds that make a loop acceptable when they enclose it or are the loop itself. */
  const EnclosingKinds: set<SyntaxKind> :=
    {GenerateRegion, GenerateBlock, AlwaysBlock, AlwaysCombBlock, AlwaysFFBlock, InitialBlock, FinalBlock}

  predicate InsideGenerateOrProcedural(chain: seq<SyntaxKind>) {
    exists i :: 0 <= i < |chain| && chain[i] in EnclosingKinds
  }

  /** `isInsideGenerateOrProcedural`: walk the parent chain from the node to the root. */
  method IsInsideGenerateOrProcedural(chain: seq<SyntaxKind>) returns (inside: bool)
    ensures inside == InsideGenerateOrProcedural(chain)
  {
    var i := 0;
    while i < |chain|
      invariant 0 <= i <= |chain|
      invariant forall j :: 0 <= j < i ==> chain[j] !in EnclosingKinds
    {
      var kind := chain[i];
      if kind == GenerateRegion || kind == GenerateBlock {
        return true;
      }
      if kind == AlwaysBlock || kind == AlwaysCombBlock || kind == AlwaysFFBlock
         || kind == InitialBlock || kind == FinalBlock {
        return true;
      }
      i := i + 1;
    }
    return false;
  }

  /** The nodes of the given kind, in visit order. */
  function OfKind(nodes: seq<Node>, k: SyntaxKind): (r: seq<Node>)
    ensures |r| <= |nodes|
  {
    if nodes == [] then []
    else OfKind(nodes[..|nodes| - 1], k) + (if nodes[|nodes| - 1].kind == k then [nodes[|nodes| - 1]] else [])
  }

  /** The syntax visitor: it records every procedural `for` loop and every generate loop
      it meets, each kind in its own list. */
  class LoopVisitor {
    var foundForLoops: seq<Node>
    var foundGenerateLoops: seq<Node>

    constructor ()
      ensures foundForLoops == [] && foundGenerateLoops == []
    {
      foundForLoops := [];
      foundGenerateLoops := [];
    }

    method Handle(node: Node)
      modifies this
      ensures foundForLoops == old(foundForLoops) + (if node.kind == ForLoopStatement then [node] else [])
      ensures foundGenerateLoops == old(foundGenerateLoops) + (if node.kind == LoopGenerate then [node] else [])
    {
      if node.kind == ForLoopStatement {
        foundForLoops := foundForLoops + [node];
      } else if node.kind == LoopGenerate {
        foundGenerateLoops := foundGenerateLoops + [node];
      }
    }

    /** Visit, in order, the nodes the syntax visitor reaches. */
    method Visit(nodes: seq<Node>)
      modifies this
      ensures foundForLoops == old(foundForLoops) + OfKind(nodes, ForLoopStatement)
      ensures foundGenerateLoops == old(foundGenerateLoops) + OfKind(nodes, LoopGenerate)
    {
      for i := 0 to |nodes|
        invariant foundForLoops == old(foundForLoops) + OfKind(nodes[..i], ForLoopStatement)
        invariant foundGenerateLoops == old(foundGenerateLoops) + OfKind(nodes[..i], LoopGenerate)
      {
        assert nodes[..i + 1][..i] == nodes[..i];
        assert nodes[..i + 1][i] == nodes[i];
        Handle(nodes[i]);
        ConcatAssoc(old(foundForLoops), OfKind(nodes[..i], ForLoopStatement),
                    if nodes[i].kind == ForLoopStatement then [nodes[i]] else []);
        ConcatAssoc(old(foundGenerateLoops), OfKind(nodes[..i], LoopGenerate),
                    if nodes[i].kind == LoopGenerate then [nodes[i]] else []);
      }
      assert nodes[..|nodes|] == nodes;
    }
  }

  /** The keyword locations of the loops that are not enclosed, in order. */
  function Unenclosed(loops: seq<Node>): (r: seq<nat>)
    ensures |r| <= |loops|
  {
    if loops == [] then []
    else Unenclosed(loops[..|loops| - 1])
         + (if InsideGenerateOrProcedural(Chain(loops[|loops| - 1])) then [] else [loops[|loops| - 1].location])
  }

  /** The diagnostics for one tree: unenclosed `for` loops first, then generate loops. */
  function TreeDiagnostics(nodes: seq<Node>): seq<nat> {
    Unenclosed(OfKind(nodes, ForLoopStatement)) + Unenclosed(OfKind(nodes, LoopGenerate))
  }

  /** One reporting loop of a handler. */
  method ReportUnenclosed(loops: seq<Node>) returns (diagnostics: seq<nat>)
    ensures diagnostics == Unenclosed(loops)
  {
    diagnostics := [];
    for i := 0 to |loops|
      invariant diagnostics == Unenclosed(loops[..i])
    {
      assert loops[..i + 1][..i] == loops[..i];
      var inside := IsInsideGenerateOrProcedural(Chain(loops[i]));
      if !inside {
        diagnostics := diagnostics + [loops[i].location];
      }
    }
    assert loops[..|loops|] == loops;
  }

  /** The body shared by both handlers: collect the loops of one tree, then report. */
  method CheckNodes(nodes: seq<Node>) returns (diagnostics: seq<nat>)
    ensures diagnostics == TreeDiagnostics(nodes)
  {
    var visitor := new LoopVisitor();
    visitor.Visit(nodes);
    assert visitor.foundForLoops == OfKind(nodes, ForLoopStatement);
    assert visitor.foundGenerateLoops == OfKind(nodes, LoopGenerate);
    var forDiagnostics := ReportUnenclosed(visitor.foundForLoops);
    var generateDiagnostics := ReportUnenclosed(visitor.foundGenerateLoops);
    diagnostics := forDiagnostics + generateDiagnostics;
  }

  /** An instance body: whether the configuration skips it, and its nodes in visit order
      when it has syntax. */
  datatype InstanceBody = InstanceBody(skipped: bool, syntax: Option<seq<Node>>)

  /** `handle(InstanceBodySymbol)`. */
  method HandleInstanceBody(body: InstanceBody) returns (diagnostics: seq<nat>)
    ensures diagnostics == if body.skipped || body.syntax.None? then [] else TreeDiagnostics(body.syntax.value)
  {
    if body.skipped || body.syntax.None? {
      return [];
    }
    diagnostics := CheckNodes(body.syntax.value);
  }

  /** The diagnostics of every syntax tree, tree by tree. */
  function RootDiagnostics(trees: seq<seq<Node>>): seq<nat> {
    if trees == [] then [] else RootDiagnostics(trees[..|trees| - 1]) + TreeDiagnostics(trees[|trees| - 1])
  }

  /** `handle(RootSymbol)` and `check`: scan every syntax tree of the compilation; the
      check passes iff nothing was reported. */
  method Check(trees: seq<seq<Node>>) returns (ok: bool, diagnostics: seq<nat>)
    ensures diagnostics == RootDiagnostics(trees)
    ensures ok <==> diagnostics == []
  {
    diagnostics := [];
    for i := 0 to |trees|
      invariant diagnostics == RootDiagnostics(trees[..i])
    {
      assert trees[..i + 1][..i] == trees[..i];
      var more := CheckNodes(trees[i]);
      diagnostics := diagnostics + more;
    }
    assert trees[..|trees|] == trees;
    ok := diagnostics == [];
  }

  // ---------------------------------------------------------------------------------
  // Properties of the rule

  /** The verdict on a chain is the disjunction of the verdicts on its parts, so adding an
      ancestor never turns an enclosed loop into an unenclosed one. */
  lemma InsideConcat(c1: seq<SyntaxKind>, c2: seq<SyntaxKind>)
    ensures InsideGenerateOrProcedural(c1 + c2) <==> InsideGenerateOrProcedural(c1) || InsideGenerateOrProcedural(c2)
  {
    var c := c1 + c2;
    if InsideGenerateOrProcedural(c) {
      var i :| 0 <= i < |c| && c[i] in EnclosingKinds;
      if i < |c1| {
        assert c1[i] == c[i];
      } else {
        assert c2[i - |c1|] == c[i];
      }
    }
    if InsideGenerateOrProcedural(c2) {
      var i :| 0 <= i < |c2| && c2[i] in EnclosingKinds;
      assert c[|c1| + i] == c2[i];
    }
    if InsideGenerateOrProcedural(c1) {
      var i :| 0 <= i < |c1| && c1[i] in EnclosingKinds;
      assert c[i] == c1[i];
    }
  }

  /** An enclosing kind anywhere above the loop makes it acceptable. */
  lemma EnclosingAncestorSuffices(n: Node, above: seq<SyntaxKind>, k: SyntaxKind, below: seq<SyntaxKind>)
    requires k in EnclosingKinds && n.parents == above + [k] + below
    ensures InsideGenerateOrProcedural(Chain(n))
  {
    assert Chain(n)[|above| + 1] == k;
  }

  /** `always_latch` and every other kind outside the seven are not enclosing: a loop whose
      only block is an `always_latch` is reported. */
  lemma LatchBlockNotEnclosing()
    ensures !InsideGenerateOrProcedural([ForLoopStatement, AlwaysLatchBlock, ModuleDeclaration, CompilationUnit])
  {
    var c := [ForLoopStatement, AlwaysLatchBlock, ModuleDeclaration, CompilationUnit];
    forall i | 0 <= i < |c|
      ensures c[i] !in EnclosingKinds
    {
      assert i == 0 || i == 1 || i == 2 || i == 3;
    }
  }

  lemma {:induction false} OfKindAppend(a: seq<Node>, b: seq<Node>, k: SyntaxKind)
    ensures OfKind(a + b, k) == OfKind(a, k) + OfKind(b, k)
    decreases |b|
  {
    if b == [] {
      assert a + b == a;
    } else {
      var c := b[..|b| - 1];
      assert (a + b)[..|a + b| - 1] == a + c;
      assert (a + b)[|a + b| - 1] == b[|b| - 1];
      OfKindAppend(a, c, k);
    }
  }

  /** The visitor drops nothing: a node is recorded exactly when it is visited and has the
      kind of the list. */
  lemma {:induction false} OfKindExactly(nodes: seq<Node>, k: SyntaxKind, n: Node)
    ensures n in OfKind(nodes, k) <==> n in nodes && n.kind == k
  {
    if nodes != [] {
      var init := nodes[..|nodes| - 1];
      OfKindExactly(init, k, n);
      assert nodes == init + [nodes[|nodes| - 1]];
    }
  }

  lemma {:induction false} UnenclosedAppend(a: seq<Node>, b: seq<Node>)
    ensures Unenclosed(a + b) == Unenclosed(a) + Unenclosed(b)
    decreases |b|
  {
    if b == [] {
      assert a + b == a;
    } else {
      var c := b[..|b| - 1];
      assert (a + b)[..|a + b| - 1] == a + c;
      assert (a + b)[|a + b| - 1] == b[|b| - 1];
      UnenclosedAppend(a, c);
    }
  }

  /** Each unenclosed loop yields one diagnostic at its keyword, and enclosed loops none. */
  lemma {:induction false} UnenclosedExactly(loops: seq<Node>, location: nat)
    ensures location in Unenclosed(loops) <==>
            exists i :: 0 <= i < |loops| && loops[i].location == location && !InsideGenerateOrProcedural(Chain(loops[i]))
  {
    if loops != [] {
      var n := |loops| - 1;
      var init := loops[..n];
      UnenclosedExactly(init, location);
      if location in Unenclosed(init) {
        var i :| 0 <= i < |init| && init[i].location == location && !InsideGenerateOrProcedural(Chain(init[i]));
        assert loops[i] == init[i];
      }
      forall i | 0 <= i < |loops| && loops[i].location == location && !InsideGenerateOrProcedural(Chain(loops[i]))
        ensures location in Unenclosed(loops)
      {
        if i < n {
          assert init[i] == loops[i];
        }
      }
    }
  }

  /** One tree yields no diagnostic exactly when each of its loops of kind `k` is enclosed. */
  lemma {:induction false} NoUnenclosedIff(nodes: seq<Node>, k: SyntaxKind)
    ensures Unenclosed(OfKind(nodes, k)) == [] <==> AllEnclosed(nodes, k)
  {
    if nodes != [] {
      var n := |nodes| - 1;
      var init := nodes[..n];
      NoUnenclosedIff(init, k);
      var last := if nodes[n].kind == k then [nodes[n]] else [];
      assert OfKind(nodes, k) == OfKind(init, k) + last;
      UnenclosedAppend(OfKind(init, k), last);
      LastLoopIff(nodes[n], k, last);
      AllEnclosedSplit(nodes, init, k);
    }
  }

  lemma LastLoopIff(node: Node, k: SyntaxKind, last: seq<Node>)
    requires last == if node.kind == k then [node] else []
    ensures Unenclosed(last) == [] <==> (node.kind == k ==> InsideGenerateOrProcedural(Chain(node)))
  {
    assert last != [] ==> last[..0] == [];
  }

  /** Every node of kind `k` is enclosed. */
  predicate AllEnclosed(nodes: seq<Node>, k: SyntaxKind) {
    forall i :: 0 <= i < |nodes| && nodes[i].kind == k ==> InsideGenerateOrProcedural(Chain(nodes[i]))
  }

  lemma AllEnclosedSplit(nodes: seq<Node>, init: seq<Node>, k: SyntaxKind)
    requires nodes != [] && init == nodes[..|nodes| - 1]
    ensures AllEnclosed(nodes, k)
            <==> AllEnclosed(init, k)
                 && (nodes[|nodes| - 1].kind == k ==> InsideGenerateOrProcedural(Chain(nodes[|nodes| - 1])))
  {
    assert forall i :: 0 <= i < |init| ==> init[i] == nodes[i];
  }

  /** A tree passes exactly when all its `for` and generate loops are enclosed. */
  lemma TreePassesIff(nodes: seq<Node>)
    ensures TreeDiagnostics(nodes) == [] <==>
            forall i :: 0 <= i < |nodes| && (nodes[i].kind == ForLoopStatement || nodes[i].kind == LoopGenerate)
                        ==> InsideGenerateOrProcedural(Chain(nodes[i]))
  {
    NoUnenclosedIff(nodes, ForLoopStatement);
    NoUnenclosedIff(nodes, LoopGenerate);
  }

  lemma AllTreesSplit(trees: seq<seq<Node>>, init: seq<seq<Node>>)
    requires trees != [] && init == trees[..|trees| - 1]
    ensures (forall t :: 0 <= t < |trees| ==> TreeDiagnostics(trees[t]) == [])
            <==> (forall t :: 0 <= t < |init| ==> TreeDiagnostics(init[t]) == [])
                 && TreeDiagnostics(trees[|trees| - 1]) == []
  {
    assert forall t :: 0 <= t < |init| ==> init[t] == trees[t];
  }

  /** The check passes exactly when every tree passes. */
  lemma {:induction false} CheckPassesIff(trees: seq<seq<Node>>)
    ensures RootDiagnostics(trees) == [] <==> forall t :: 0 <= t < |trees| ==> TreeDiagnostics(trees[t]) == []
  {
    if trees != [] {
      var n := |trees| - 1;
      CheckPassesIff(trees[..n]);
      AllTreesSplit(trees, trees[..n]);
    }
  }

  /** A loop in a `generate` region passes. */
  lemma LoopInGenerateRegionPasses()
    ensures TreeDiagnostics([Node(ModuleDeclaration, [CompilationUnit], 0),
                             Node(GenerateRegion, [ModuleDeclaration, CompilationUnit], 1),
                             Node(LoopGenerate, [GenerateRegion, ModuleDeclaration, CompilationUnit], 2)]) == []
  {
    var loop := Node(LoopGenerate, [GenerateRegion, ModuleDeclaration, CompilationUnit], 2);
    var nodes := [Node(ModuleDeclaration, [CompilationUnit], 0),
                  Node(GenerateRegion, [ModuleDeclaration, CompilationUnit], 1), loop];
    assert InsideGenerateOrProcedural(Chain(loop)) by {
      assert Chain(loop)[1] == GenerateRegion;
    }
    OnlyLastIsLoop(nodes, ForLoopStatement);
    OnlyLastIsLoop(nodes, LoopGenerate);
    NoUnenclosedIff(nodes, ForLoopStatement);
    NoUnenclosedIff(nodes, LoopGenerate);
  }

  /** When no node but the last is a loop, all loops are enclosed iff the last one is or it
      is not a loop of that kind. */
  lemma OnlyLastIsLoop(nodes: seq<Node>, k: SyntaxKind)
    requires nodes != [] && k in {ForLoopStatement, LoopGenerate}
    requires forall i :: 0 <= i < |nodes| - 1 ==> nodes[i].kind !in {ForLoopStatement, LoopGenerate}
    ensures AllEnclosed(nodes, k) <==>
            (nodes[|nodes| - 1].kind == k ==> InsideGenerateOrProcedural(Chain(nodes[|nodes| - 1])))
  {
  }

  /** A module-level loop is reported at its keyword. */
  lemma ModuleLevelLoopReported()
    ensures TreeDiagnostics([Node(ModuleDeclaration, [CompilationUnit], 0),
                             Node(LoopGenerate, [ModuleDeclaration, CompilationUnit], 1)]) == [1]
  {
    var loop := Node(LoopGenerate, [ModuleDeclaration, CompilationUnit], 1);
    var nodes := [Node(ModuleDeclaration, [CompilationUnit], 0), loop];
    ModuleLevelChainNotEnclosed(loop);
    assert nodes[..1] == [nodes[0]] && nodes[..1][..0] == [];
    assert OfKind(nodes, ForLoopStatement) == [];
    assert OfKind(nodes, LoopGenerate) == [loop];
    assert [loop][..0] == [];
  }

  lemma ModuleLevelChainNotEnclosed(loop: Node)
    requires loop.kind == LoopGenerate && loop.parents == [ModuleDeclaration, CompilationUnit]
    ensures !InsideGenerateOrProcedural(Chain(loop))
  {
    var c := Chain(loop);
    assert c == [LoopGenerate, ModuleDeclaration, CompilationUnit];
    forall i | 0 <= i < |c|
      ensures c[i] !in EnclosingKinds
    {
      assert i == 0 || i == 1 || i == 2;
    }
  }

  /** A `for` loop inside `always_comb` passes. */
  lemma LoopInAlwaysCombPasses()
    ensures TreeDiagnostics([Node(ModuleDeclaration, [CompilationUnit], 0),
                             Node(ForLoopStatement, [OtherKind("SequentialBlockStatement"), AlwaysCombBlock,
                                                     ModuleDeclaration, CompilationUnit], 1)]) == []
  {
    var loop := Node(ForLoopStatement, [OtherKind("SequentialBlockStatement"), AlwaysCombBlock,
                                        ModuleDeclaration, CompilationUnit], 1);
    var nodes := [Node(ModuleDeclaration, [CompilationUnit], 0), loop];
    assert InsideGenerateOrProcedural(Chain(loop)) by {
      assert Chain(loop)[2] == AlwaysCombBlock;
    }
    OnlyLastIsLoop(nodes, ForLoopStatement);
    OnlyLastIsLoop(nodes, LoopGenerate);
    NoUnenclosedIff(nodes, ForLoopStatement);
    NoUnenclosedIff(nodes, LoopGenerate);
  }
}

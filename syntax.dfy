/** The syntax-node kinds that the rules inspect. The parser is not modelled: a node is
    represented by its kind, and its position in the tree by the kinds of the nodes on its
    chain of parents. Every kind that no rule names is `OtherKind`. */
module Syntax {

  datatype SyntaxKind =
    // structure
    | CompilationUnit
    | ModuleDeclaration
    | DelayControl
    | ParameterDeclarationStatement
    | ParameterDeclaration
    | ParameterPortList
    | VariableDimension
    // loops and the blocks that may hold them
    | ForLoopStatement
    | LoopGenerate
    | GenerateRegion
    | GenerateBlock
    | AlwaysBlock
    | AlwaysCombBlock
    | AlwaysFFBlock
    | AlwaysLatchBlock
    | InitialBlock
    | FinalBlock
    // selects
    | ElementSelectExpression
    | BitSelect
    | SimpleRangeSelect
    | AscendingRangeSelect
    | DescendingRangeSelect
    // names
    | IdentifierName
    | IdentifierSelectName
    | EmptyIdentifierName
    // literals
    | IntegerLiteralExpression
    | IntegerVectorExpression
    | RealLiteralExpression
    | StringLiteralExpression
    | UnbasedUnsizedLiteralExpression
    | NullLiteralExpression
    | TimeLiteralExpression
    | WildcardLiteralExpression
    // other expressions
    | BitType
    | MemberAccessExpression
    | ConcatenationExpression
    | BinaryOrExpression
    | OtherKind(name: string)
}

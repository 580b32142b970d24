/**
 * The slice of the ESTree syntax tree that the two memoization rules look at,
 * together with the source text it was parsed from.  The host parser and its
 * parent-pointer decoration are replaced by explicit fields: a function node
 * carries what it knows about its parent declarator.
 */
module Ast {

  datatype Option<+T> = None | Some(value: T) {
    function GetOr(default: T): T {
      match this
      case Some(v) => v
      case None => default
    }
  }

  /** Half-open character range [start, end) into the source text, as ESTree's `range`. */
  datatype Range = Range(start: nat, end: nat)

  /** The callee of a call expression: a plain identifier, a member access (with the
      name of its object when that object is an identifier), or anything else. */
  datatype Callee =
    | Ident(name: string)
    | Member(objectName: Option<string>)
    | OtherCallee

  /** The expression kinds the two rules distinguish. */
  datatype ExprKind =
    | ArrowFn
    | FnExpr
    | Call(callee: Callee)
    | Object
    | Array
    | JSXElement
    | JSXFragment
    | Literal
    | Other

  datatype Expr = Expr(kind: ExprKind, range: Range)

  /** A variable declarator; only its initializer matters to the scan. */
  datatype Declarator = Declarator(init: Option<Expr>)

  datatype Statement =
    | VariableDeclaration(declarations: seq<Declarator>)
    | OtherStatement

  datatype Body =
    | BlockStatement(statements: seq<Statement>)
    | ExpressionBody(expr: Expr)

  datatype FunctionKind = FunctionDeclaration | FunctionExpression | ArrowFunctionExpression

  /** The `id` of a variable declarator: an identifier or a destructuring pattern. */
  datatype Pattern = IdentifierPattern(name: string) | OtherPattern

  /** The parent of a function node: a variable declarator (with its id), or any other
      node; a missing parent is `OtherParent` as well. */
  datatype Parent = DeclaratorParent(id: Pattern) | OtherParent

  /** A function node the host visits: FunctionDeclaration, FunctionExpression or
      ArrowFunctionExpression, with its own `id` name (if any) and its parent. */
  datatype FunctionNode = FunctionNode(kind: FunctionKind, id: Option<string>, parent: Parent, body: Body)

  /** The imported name of an ImportSpecifier: an identifier or a string literal. */
  datatype ModuleExportName = IdentName(name: string) | StringName(value: string)

  datatype Specifier =
    | ImportSpecifier(imported: ModuleExportName, local: string, range: Range)
    | ImportDefaultSpecifier(local: string, range: Range)
    | ImportNamespaceSpecifier(local: string, range: Range)

  datatype ImportDeclaration = ImportDeclaration(source: string, specifiers: seq<Specifier>, range: Range)

  /** A top-level statement of the program. */
  datatype Item = Import(decl: ImportDeclaration) | OtherItem

  /** The source text and the program's top-level statements. */
  datatype SourceUnit = SourceUnit(text: string, body: seq<Item>)

  predicate ValidRange(r: Range, text: string) {
    r.start <= r.end <= |text|
  }

  /** `sourceCode.getText(node)`: the exact original text of a range. */
  function GetText(unit: SourceUnit, r: Range): (t: string)
    requires ValidRange(r, unit.text)
    ensures |t| == r.end - r.start
    ensures forall k :: 0 <= k < |t| ==> t[k] == unit.text[r.start + k]
  {
    unit.text[r.start..r.end]
  }

  /** JavaScript's `String.prototype.startsWith`. */
  predicate StartsWith(s: string, prefix: string) {
    |prefix| <= |s| && s[..|prefix|] == prefix
  }
}

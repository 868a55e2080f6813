/**
 * The part of the `sqlparser` abstract syntax tree that the query encoder
 * inspects. Every node kind the encoder does not distinguish is folded into
 * an `Other…` variant; the parser itself is not part of this model.
 */
module SqlAst {
  import opened Prelude

  /** `ast::Value`: a literal; booleans, `NULL` and the other literal kinds are `OtherValue`. */
  datatype Value =
    | Number(text: string, long: bool)
    | SingleQuotedString(s: string)
    | OtherValue

  /**
   * A subset of `ast::BinaryOperator`: the arithmetic, comparison, logical
   * and bitwise operators. Shifts, `DIV`, the PostgreSQL-specific operators
   * and `Custom` are not modelled.
   */
  datatype BinaryOperator =
    | Plus | Minus | Multiply | Divide | Modulo | StringConcat
    | Gt | Lt | GtEq | LtEq | Spaceship | Eq | NotEq
    | And | Or | Xor | BitwiseOr | BitwiseAnd | BitwiseXor
  {
    /** The operator's `Display` text, which `op.to_string()` produces. */
    function Text(): (t: string)
      ensures |t| > 0
      ensures forall i :: 0 <= i < |t| ==> t[i] as int < 0x80
    {
      match this
      case Plus => "+"
      case Minus => "-"
      case Multiply => "*"
      case Divide => "/"
      case Modulo => "%"
      case StringConcat => "||"
      case Gt => ">"
      case Lt => "<"
      case GtEq => ">="
      case LtEq => "<="
      case Spaceship => "<=>"
      case Eq => "="
      case NotEq => "<>"
      case And => "AND"
      case Or => "OR"
      case Xor => "XOR"
      case BitwiseOr => "|"
      case BitwiseAnd => "&"
      case BitwiseXor => "^"
    }
  }

  /** A subset of `ast::UnaryOperator`; the PostgreSQL-specific operators other than `~` are not modelled. */
  datatype UnaryOperator = Plus | Minus | Not | PGBitwiseNot
  {
    /** The operator's `Display` text. */
    function Text(): (t: string)
      ensures |t| > 0
    {
      match this
      case Plus => "+"
      case Minus => "-"
      case Not => "NOT"
      case PGBitwiseNot => "~"
    }
  }

  /** `ast::Expr`, with the shapes a `WHERE` clause is made of. */
  datatype Expr =
    | Identifier(value: string)
    | Wildcard
    | Value(literal: Value)
    | BinaryOp(left: Expr, op: BinaryOperator, right: Expr)
    | UnaryOp(uop: UnaryOperator, expr: Expr)
    | InList(expr: Expr, list: seq<Expr>, negated: bool)
    | Between(expr: Expr, negated: bool, low: Expr, high: Expr)
    | OtherExpr

  /** `ast::ObjectName`: a dotted name, which the parser never leaves empty. */
  datatype ObjectName = ObjectName(first: string, rest: seq<string>)

  /** `ast::SelectItem`. */
  datatype SelectItem =
    | UnnamedExpr(expr: Expr)
    | ExprWithAlias(expr: Expr, alias: string)
    | QualifiedWildcard(name: ObjectName)
    | Wildcard

  /** `ast::TableFactor`: only a plain table reference carries a name the encoder reads. */
  datatype TableFactor = Table(name: ObjectName) | OtherFactor

  /** `ast::TableWithJoins`; joins are not read. */
  datatype TableWithJoins = TableWithJoins(relation: TableFactor)

  /** `ast::Select`: `SELECT projection FROM from [WHERE selection]`. */
  datatype Select = Select(projection: seq<SelectItem>, from: seq<TableWithJoins>, selection: Option<Expr>)

  /** `ast::SetExpr`: the body of a query. */
  datatype SetExpr = SelectBody(select: Select) | OtherSetExpr

  /** `ast::Statement`: only a query is read. */
  datatype Statement = Query(body: SetExpr) | OtherStatement
}

/**
 * The query encoder of `src/main.rs`: `EncryptedQuery::encrypt_query` and the
 * helpers `handle_selection`, `encrypt_binary_op` and `encrypt_value`, which
 * lower a parsed `SELECT … FROM … WHERE …` into a flat vector of encrypted
 * bytes by pushing onto one shared `Vec<FheUint8>`.
 *
 * Each operation is a method on that vector (`CipherBuffer`), proved against
 * a function giving the plaintext bytes it appends. The lemmas state what
 * those functions promise: which AST shapes contribute which bytes, in which
 * order, and which contribute nothing.
 */
module QueryEncoder {
  import opened Prelude
  import opened ParseInt
  import Utf8
  import opened Fhe
  import opened SqlAst

  /** `EncryptedQuery`: the encrypted query vector. */
  datatype EncryptedQuery = EncryptedQuery(encryptedElements: seq<FheUint8>)

  /** The `Vec<FheUint8>` the encoder pushes onto through `&mut`. */
  class CipherBuffer {
    var elems: seq<FheUint8>

    /** `Vec::new()`. */
    constructor ()
      ensures elems == []
    {
      elems := [];
    }

    /** `Vec::push`. */
    method Push(c: FheUint8)
      modifies this
      ensures elems == old(elems) + [c]
    {
      elems := elems + [c];
    }
  }

  /** `text.as_bytes()[0]`: the first byte of a string's UTF-8 encoding. */
  function FirstByte(text: string): byte
    requires |text| > 0
  {
    Utf8.Encode(text)[0]
  }

  /** The byte `b'*'` that stands for a wildcard projection. */
  const WildcardToken: byte := '*' as int

  // ---------------------------------------------------------------------------
  // What each operation appends, as plaintext bytes
  // ---------------------------------------------------------------------------

  /** The bytes `encrypt_value` appends for an expression. */
  function ValueTokens(e: Expr): seq<byte> {
    if e.Identifier? then
      match ParseU8(e.value)
      case Ok(n) => [n]
      case Err(_) => []
    else []
  }

  /** The bytes `encrypt_binary_op` appends for `left op right`. */
  function BinaryOpTokens(left: Expr, op: string, right: Expr): seq<byte>
    requires |op| > 0
  {
    ValueTokens(left) + ValueTokens(right) + [FirstByte(op)]
  }

  /** The bytes one element of an `IN` list contributes. */
  function InItemTokens(item: Expr): seq<byte> {
    match item
    case Value(Number(text, _)) =>
      (match ParseU8(text)
       case Ok(n) => [n]
       case Err(_) => [])
    case Value(SingleQuotedString(s)) => Utf8.Encode(s)
    case _ => []
  }

  /** The bytes the elements of an `IN` list contribute, in list order. */
  function InListTokens(list: seq<Expr>): seq<byte>
    decreases |list|
  {
    if list == [] then [] else InListTokens(list[..|list| - 1]) + InItemTokens(list[|list| - 1])
  }

  /** The bytes `handle_selection` appends for a `WHERE` expression. */
  function SelectionTokens(e: Expr): seq<byte> {
    match e
    case BinaryOp(left, op, right) => BinaryOpTokens(left, op.Text(), right)
    case UnaryOp(uop, inner) =>
      if uop.Text() == "NOT" then SelectionTokens(inner) + [FirstByte(uop.Text())] else []
    case InList(x, list, _) =>
      if x.Identifier? then InListTokens(list) + [FirstByte("IN")] else []
    case Between(x, _, low, high) =>
      ValueTokens(x) + ValueTokens(low) + ValueTokens(high) + [FirstByte("BETWEEN")]
    case _ => []
  }

  /** The bytes one projection item contributes. */
  function ProjectionItemTokens(item: SelectItem): seq<byte> {
    match item
    case UnnamedExpr(Identifier(v)) =>
      (match ParseU8(v)
       case Ok(n) => [n]
       case Err(_) => [])
    case UnnamedExpr(Wildcard) => [WildcardToken]
    case Wildcard => [WildcardToken]
    case _ => []
  }

  /** The bytes the projection list contributes, in order. */
  function ProjectionTokens(items: seq<SelectItem>): seq<byte>
    decreases |items|
  {
    if items == [] then []
    else ProjectionTokens(items[..|items| - 1]) + ProjectionItemTokens(items[|items| - 1])
  }

  /** The bytes one `FROM` item contributes: its table name's first part, if it reads as a `u8`. */
  function FromItemTokens(item: TableWithJoins): seq<byte> {
    match item.relation
    case Table(name) =>
      (match ParseU8(name.first)
       case Ok(n) => [n]
       case Err(_) => [])
    case OtherFactor => []
  }

  /** The bytes the `FROM` list contributes, in order. */
  function FromTokens(from: seq<TableWithJoins>): seq<byte>
    decreases |from|
  {
    if from == [] then [] else FromTokens(from[..|from| - 1]) + FromItemTokens(from[|from| - 1])
  }

  /** The bytes an optional `WHERE` clause contributes. */
  function WhereTokens(selection: Option<Expr>): seq<byte> {
    match selection
    case Some(e) => SelectionTokens(e)
    case None => []
  }

  /** The `SELECT` the encoder reads: the body of the first statement, when that is a query over a `SELECT`. */
  function FirstSelect(ast: seq<Statement>): Option<Select> {
    if |ast| > 0 && ast[0].Query? && ast[0].body.SelectBody? then Some(ast[0].body.select) else None
  }

  // ---------------------------------------------------------------------------
  // The operations
  // ---------------------------------------------------------------------------

  /** `encrypt_value`: push the identifier's value when its text parses as a `u8`. */
  method EncryptValue(expr: Expr, out: CipherBuffer)
    modifies out
    ensures out.elems == old(out.elems) + EncryptAll(ValueTokens(expr))
  {
    if expr.Identifier? {
      match ParseU8(expr.value) {
        case Ok(n) => out.Push(Encrypt(n));
        case Err(_) =>
      }
    }
  }

  /** `encrypt_binary_op`: push the left operand, the right operand, then the operator's first byte. */
  method EncryptBinaryOp(left: Expr, op: string, right: Expr, out: CipherBuffer)
    requires |op| > 0
    modifies out
    ensures out.elems == old(out.elems) + EncryptAll(BinaryOpTokens(left, op, right))
  {
    EncryptValue(left, out);
    EncryptValue(right, out);
    out.Push(Encrypt(FirstByte(op)));
    EncryptAllAppend(ValueTokens(left), ValueTokens(right));
    EncryptAllSnoc(ValueTokens(left) + ValueTokens(right), FirstByte(op));
  }

  /** `handle_selection`: lower one `WHERE` expression onto the end of the vector. */
  method HandleSelection(expr: Expr, out: CipherBuffer)
    modifies out
    ensures out.elems == old(out.elems) + EncryptAll(SelectionTokens(expr))
    decreases expr
  {
    match expr {
      case BinaryOp(left, op, right) =>
        EncryptBinaryOp(left, op.Text(), right, out);
      case UnaryOp(uop, inner) =>
        if uop.Text() == "NOT" {
          HandleSelection(inner, out);
          out.Push(Encrypt(FirstByte(uop.Text())));
          EncryptAllSnoc(SelectionTokens(inner), FirstByte(uop.Text()));
        }
      case InList(x, list, _) =>
        EncryptIn(x, list, out);
      case Between(x, _, low, high) =>
        EncryptBetween(x, low, high, out);
      case _ =>
    }
  }

  /** The `IN` arm of `handle_selection`: only an identifier on the left lets the list through, then `b'I'`. */
  method EncryptIn(x: Expr, list: seq<Expr>, out: CipherBuffer)
    modifies out
    ensures out.elems == old(out.elems) + EncryptAll(if x.Identifier? then InListTokens(list) + [FirstByte("IN")] else [])
  {
    if x.Identifier? {
      var marker := FirstByte("IN");
      EncryptInList(list, out);
      out.Push(Encrypt(marker));
      EncryptAllSnoc(InListTokens(list), marker);
    }
  }

  /** The `BETWEEN` arm of `handle_selection`: the three operands, then `b'B'`. */
  method EncryptBetween(x: Expr, low: Expr, high: Expr, out: CipherBuffer)
    modifies out
    ensures out.elems == old(out.elems) + EncryptAll(ValueTokens(x) + ValueTokens(low) + ValueTokens(high) + [FirstByte("BETWEEN")])
  {
    var marker := FirstByte("BETWEEN");
    ghost var start := out.elems;
    ghost var a, b, c := ValueTokens(x), ValueTokens(low), ValueTokens(high);
    EncryptValue(x, out);
    EncryptValue(low, out);
    ConcatAssoc(start, EncryptAll(a), EncryptAll(b));
    EncryptAllAppend(a, b);
    EncryptValue(high, out);
    ConcatAssoc(start, EncryptAll(a + b), EncryptAll(c));
    EncryptAllAppend(a + b, c);
    out.Push(Encrypt(marker));
    ConcatAssoc(start, EncryptAll(a + b + c), [Encrypt(marker)]);
    EncryptAllSnoc(a + b + c, marker);
  }

  /** The loop of `handle_selection` over the elements of an `IN` list. */
  method EncryptInList(list: seq<Expr>, out: CipherBuffer)
    modifies out
    ensures out.elems == old(out.elems) + EncryptAll(InListTokens(list))
  {
    for i := 0 to |list|
      invariant out.elems == old(out.elems) + EncryptAll(InListTokens(list[..i]))
    {
      assert InListTokens(list[..i + 1]) == InListTokens(list[..i]) + InItemTokens(list[i]) by {
        assert list[..i + 1][..i] == list[..i];
      }
      EncryptAllAppend(InListTokens(list[..i]), InItemTokens(list[i]));
      EncryptInItem(list[i], out);
      ConcatAssoc(old(out.elems), EncryptAll(InListTokens(list[..i])), EncryptAll(InItemTokens(list[i])));
    }
    assert list[..|list|] == list;
  }

  /** The body of that loop: a `u8` number literal is pushed, a string literal byte by byte, anything else not at all. */
  method EncryptInItem(item: Expr, out: CipherBuffer)
    modifies out
    ensures out.elems == old(out.elems) + EncryptAll(InItemTokens(item))
  {
    match item {
      case Value(Number(text, _)) =>
        match ParseU8(text) {
          case Ok(n) => out.Push(Encrypt(n));
          case Err(_) =>
        }
      case Value(SingleQuotedString(s)) =>
        EncryptBytes(Utf8.Encode(s), out);
      case _ =>
    }
  }

  /** The loop `for byte in s.bytes()` that pushes a string literal byte by byte. */
  method EncryptBytes(bytes: seq<byte>, out: CipherBuffer)
    modifies out
    ensures out.elems == old(out.elems) + EncryptAll(bytes)
  {
    for j := 0 to |bytes|
      invariant out.elems == old(out.elems) + EncryptAll(bytes[..j])
    {
      assert bytes[..j + 1] == bytes[..j] + [bytes[j]];
      EncryptAllAppend(bytes[..j], [bytes[j]]);
      out.Push(Encrypt(bytes[j]));
    }
    assert bytes[..|bytes|] == bytes;
  }

  /** The projection loop of `encrypt_query`. */
  method EncryptProjection(items: seq<SelectItem>, out: CipherBuffer)
    modifies out
    ensures out.elems == old(out.elems) + EncryptAll(ProjectionTokens(items))
  {
    for i := 0 to |items|
      invariant out.elems == old(out.elems) + EncryptAll(ProjectionTokens(items[..i]))
    {
      assert items[..i + 1][..i] == items[..i];
      EncryptAllAppend(ProjectionTokens(items[..i]), ProjectionItemTokens(items[i]));
      EncryptProjectionItem(items[i], out);
    }
    assert items[..|items|] == items;
  }

  /** One projection item: a `u8` identifier is pushed, either wildcard form pushes `b'*'`. */
  method EncryptProjectionItem(item: SelectItem, out: CipherBuffer)
    modifies out
    ensures out.elems == old(out.elems) + EncryptAll(ProjectionItemTokens(item))
  {
    match item {
      case UnnamedExpr(Identifier(v)) =>
        match ParseU8(v) {
          case Ok(n) => out.Push(Encrypt(n));
          case Err(_) =>
        }
      case UnnamedExpr(Wildcard) => out.Push(Encrypt(WildcardToken));
      case Wildcard => out.Push(Encrypt(WildcardToken));
      case _ =>
    }
  }

  /** The `FROM` loop of `encrypt_query`. */
  method EncryptFrom(from: seq<TableWithJoins>, out: CipherBuffer)
    modifies out
    ensures out.elems == old(out.elems) + EncryptAll(FromTokens(from))
  {
    for i := 0 to |from|
      invariant out.elems == old(out.elems) + EncryptAll(FromTokens(from[..i]))
    {
      assert from[..i + 1][..i] == from[..i];
      EncryptAllAppend(FromTokens(from[..i]), FromItemTokens(from[i]));
      match from[i].relation {
        case Table(name) =>
          match ParseU8(name.first) {
            case Ok(n) => out.Push(Encrypt(n));
            case Err(_) =>
          }
        case OtherFactor =>
      }
    }
    assert from[..|from|] == from;
  }

  /**
   * `EncryptedQuery::encrypt_query`, from the parsed statements onward: the
   * projection's bytes, then the `FROM` list's, then the `WHERE` clause's.
   * It never fails.
   */
  method EncryptQuery(ast: seq<Statement>) returns (r: Result<EncryptedQuery, Unit>)
    ensures r.Ok?
    ensures FirstSelect(ast).None? ==> r.value.encryptedElements == []
    ensures FirstSelect(ast).Some? ==>
      var select := FirstSelect(ast).value;
      r.value.encryptedElements
        == EncryptAll(ProjectionTokens(select.projection) + FromTokens(select.from) + WhereTokens(select.selection))
  {
    var out := new CipherBuffer();
    if |ast| > 0 && ast[0].Query? && ast[0].body.SelectBody? {
      var select := ast[0].body.select;
      ghost var projection, from, where :=
        ProjectionTokens(select.projection), FromTokens(select.from), WhereTokens(select.selection);
      EncryptProjection(select.projection, out);
      assert out.elems == EncryptAll(projection);
      EncryptFrom(select.from, out);
      EncryptAllAppend(projection, from);
      assert out.elems == EncryptAll(projection + from);
      if select.selection.Some? {
        HandleSelection(select.selection.value, out);
      } else {
        assert projection + from + where == projection + from;
      }
      EncryptAllAppend(projection + from, where);
      assert out.elems == EncryptAll(projection + from + where);
    }
    r := Ok(EncryptedQuery(out.elems));
  }
}

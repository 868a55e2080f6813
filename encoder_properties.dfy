/**
 * What the query encoder promises, stated over the functions that give the
 * bytes each of its operations appends (`QueryEncoder.ValueTokens`,
 * `SelectionTokens`, `InListTokens`, `ProjectionTokens`, `FromTokens`).
 * The methods of `QueryEncoder` are proved to append exactly those bytes, so
 * every lemma here is a statement about the encrypted vector as well.
 */
module EncoderProperties {
  import opened Prelude
  import opened ParseInt
  import Utf8
  import opened SqlAst
  import opened QueryEncoder

  /** The marker bytes are the first letters of the operator texts. */
  lemma MarkerBytes()
    ensures FirstByte("NOT") == 'N' as int && FirstByte("IN") == 'I' as int
    ensures FirstByte("BETWEEN") == 'B' as int
    ensures FirstByte(BinaryOperator.And.Text()) == 'A' as int
    ensures FirstByte(BinaryOperator.Or.Text()) == 'O' as int
    ensures FirstByte(BinaryOperator.Eq.Text()) == '=' as int
    ensures FirstByte(BinaryOperator.GtEq.Text()) == FirstByte(BinaryOperator.Gt.Text()) == '>' as int
  {
  }

  /**
   * `encrypt_value` appends one byte, the identifier's value, exactly when the
   * expression is an identifier whose text is a `u8` literal, and nothing
   * otherwise.
   */
  lemma EncryptValueSpec(e: Expr)
    ensures ValueTokens(e)
         == if e.Identifier? && IsU8Literal(e.value) then [DecimalValue(Unsigned(e.value)) as byte] else []
  {
    if e.Identifier? {
      ParseU8Correct(e.value);
    }
  }

  /**
   * `encrypt_binary_op` appends the left operand's byte (if any), the right
   * operand's byte (if any), and last the operator's first byte: one to three
   * bytes. Operands that are not identifiers, such as the nested comparisons
   * under `AND` and `OR`, contribute nothing.
   */
  lemma BinaryOpShape(left: Expr, op: BinaryOperator, right: Expr)
    ensures var t := SelectionTokens(BinaryOp(left, op, right));
      && 1 <= |t| <= 3
      && t[|t| - 1] == FirstByte(op.Text())
      && t[..|t| - 1] == ValueTokens(left) + ValueTokens(right)
      && (!left.Identifier? && !right.Identifier? ==> t == [FirstByte(op.Text())])
  {
    var t := SelectionTokens(BinaryOp(left, op, right));
    assert t == ValueTokens(left) + ValueTokens(right) + [FirstByte(op.Text())];
    assert t[..|t| - 1] == ValueTokens(left) + ValueTokens(right);
  }

  /** `a = 1 AND b = 2` with every name a `u8` still encodes to the single byte `b'A'`. */
  lemma NestedConjunctionEncodesOnlyMarker(a: string, b: string)
    ensures SelectionTokens(BinaryOp(BinaryOp(Identifier(a), Eq, Identifier("1")), And,
                                     BinaryOp(Identifier(b), Eq, Identifier("2"))))
         == ['A' as int]
  {
  }

  /** `NOT e` is the encoding of `e` followed by `b'N'`. */
  lemma NotAppendsN(e: Expr)
    ensures SelectionTokens(UnaryOp(UnaryOperator.Not, e)) == SelectionTokens(e) + ['N' as int]
  {
    assert FirstByte("NOT") == 'N' as int;
  }

  /** `k` nested `NOT`s around an expression. */
  function Nots(k: nat, e: Expr): Expr {
    if k == 0 then e else UnaryOp(UnaryOperator.Not, Nots(k - 1, e))
  }

  /** Each `NOT` appends one `b'N'` after the encoding of what it negates. */
  lemma {:induction false} NotChain(k: nat, e: Expr)
    ensures SelectionTokens(Nots(k, e)) == SelectionTokens(e) + seq(k, _ => 'N' as int)
  {
    if k > 0 {
      var ns := seq(k - 1, _ => 'N' as int);
      NotChain(k - 1, e);
      NotAppendsN(Nots(k - 1, e));
      assert seq(k, _ => 'N' as int) == ns + ['N' as int];
      ConcatAssoc(SelectionTokens(e), ns, ['N' as int]);
    }
  }

  /** A unary operator other than `NOT` appends nothing, and its operand is not visited. */
  lemma OtherUnaryAppendsNothing(uop: UnaryOperator, e: Expr)
    requires uop != UnaryOperator.Not
    ensures SelectionTokens(UnaryOp(uop, e)) == []
  {
  }

  /** Appending one element to an `IN` list appends that element's bytes. */
  lemma InListSnoc(list: seq<Expr>, x: Expr)
    ensures InListTokens(list + [x]) == InListTokens(list) + InItemTokens(x)
  {
    assert (list + [x])[..|list|] == list;
  }

  /** The `IN` list's bytes come element by element in list order. */
  lemma {:induction false} InListAppend(a: seq<Expr>, b: seq<Expr>)
    ensures InListTokens(a + b) == InListTokens(a) + InListTokens(b)
    decreases |b|
  {
    if b == [] {
      assert a + b == a;
    } else {
      var init, last := b[..|b| - 1], b[|b| - 1];
      assert InListTokens(a + b) == InListTokens(a + init) + InItemTokens(last) by {
        assert a + b == (a + init) + [last];
        InListSnoc(a + init, last);
      }
      assert InListTokens(b) == InListTokens(init) + InItemTokens(last) by {
        assert b == init + [last];
        InListSnoc(init, last);
      }
      InListAppend(a, init);
      ConcatAssoc(InListTokens(a), InListTokens(init), InItemTokens(last));
    }
  }

  /** `x IN (…)` appends the list's bytes then `b'I'` when `x` is an identifier, and nothing otherwise. */
  lemma InListShape(x: Expr, list: seq<Expr>, negated: bool)
    ensures x.Identifier? ==> SelectionTokens(InList(x, list, negated)) == InListTokens(list) + ['I' as int]
    ensures !x.Identifier? ==> SelectionTokens(InList(x, list, negated)) == []
  {
  }

  /** A list of `u8` number literals contributes exactly their values, in order. */
  lemma {:induction false} InListNumbers(list: seq<Expr>, values: seq<byte>)
    requires |list| == |values|
    requires forall i :: 0 <= i < |list| ==>
      list[i].Value? && list[i].literal.Number? && ParseU8(list[i].literal.text) == Ok(values[i])
    ensures InListTokens(list) == values
    decreases |list|
  {
    if list != [] {
      var n := |list| - 1;
      InListNumbers(list[..n], values[..n]);
      assert values == values[..n] + [values[n]];
    }
  }

  /** Elements of an `IN` list that are neither number nor string literals contribute nothing. */
  lemma {:induction false} InListSkipsOthers(list: seq<Expr>)
    requires forall i :: 0 <= i < |list| ==>
      !(list[i].Value? && (list[i].literal.Number? || list[i].literal.SingleQuotedString?))
    ensures InListTokens(list) == []
    decreases |list|
  {
    if list != [] {
      InListSkipsOthers(list[..|list| - 1]);
    }
  }

  /** The concatenated texts of a list of string literals. */
  function ConcatStrings(list: seq<Expr>): string
    requires forall i :: 0 <= i < |list| ==> list[i].Value? && list[i].literal.SingleQuotedString?
    decreases |list|
  {
    if list == [] then "" else ConcatStrings(list[..|list| - 1]) + list[|list| - 1].literal.s
  }

  /**
   * A list of string literals contributes the UTF-8 bytes of their
   * concatenation: well formed, and decoding to the joined text, so the
   * boundaries between the strings are not kept.
   */
  lemma {:induction false} InListStrings(list: seq<Expr>)
    requires forall i :: 0 <= i < |list| ==> list[i].Value? && list[i].literal.SingleQuotedString?
    ensures InListTokens(list) == Utf8.Encode(ConcatStrings(list))
    ensures Utf8.Valid(InListTokens(list)) && Utf8.Decode(InListTokens(list)) == ConcatStrings(list)
    decreases |list|
  {
    if list != [] {
      var n := |list| - 1;
      InListStrings(list[..n]);
      Utf8.EncodeAppend(ConcatStrings(list[..n]), list[n].literal.s);
    }
    Utf8.EncodeValid(ConcatStrings(list));
  }

  /** `x BETWEEN low AND high` appends the three operands' bytes (identifiers only) then `b'B'`. */
  lemma BetweenShape(x: Expr, negated: bool, low: Expr, high: Expr)
    ensures var t := SelectionTokens(Between(x, negated, low, high));
      && 1 <= |t| <= 4 && t[|t| - 1] == 'B' as int
      && t[..|t| - 1] == ValueTokens(x) + ValueTokens(low) + ValueTokens(high)
  {
    var t := SelectionTokens(Between(x, negated, low, high));
    assert t[..|t| - 1] == ValueTokens(x) + ValueTokens(low) + ValueTokens(high);
  }

  /** `NOT IN` and `NOT BETWEEN` encode exactly like `IN` and `BETWEEN`: the negation is dropped. */
  lemma NegationDropped(x: Expr, list: seq<Expr>, low: Expr, high: Expr)
    ensures SelectionTokens(InList(x, list, true)) == SelectionTokens(InList(x, list, false))
    ensures SelectionTokens(Between(x, true, low, high)) == SelectionTokens(Between(x, false, low, high))
  {
  }

  /** Each projection item contributes at most one byte. */
  lemma {:induction false} ProjectionAtMostOnePerItem(items: seq<SelectItem>)
    ensures |ProjectionTokens(items)| <= |items|
    decreases |items|
  {
    if items != [] {
      ProjectionAtMostOnePerItem(items[..|items| - 1]);
    }
  }

  /** Both spellings of `SELECT *` contribute the single byte `b'*'`. */
  lemma WildcardProjection()
    ensures ProjectionTokens([SelectItem.Wildcard]) == ['*' as int]
    ensures ProjectionTokens([UnnamedExpr(Expr.Wildcard)]) == ['*' as int]
  {
    assert [SelectItem.Wildcard][..0] == [];
    assert [UnnamedExpr(Expr.Wildcard)][..0] == [];
  }

  /** Each `FROM` item contributes at most one byte. */
  lemma {:induction false} FromAtMostOnePerItem(from: seq<TableWithJoins>)
    ensures |FromTokens(from)| <= |from|
    decreases |from|
  {
    if from != [] {
      FromAtMostOnePerItem(from[..|from| - 1]);
    }
  }

  /** The bytes `encrypt_query` produces for one `SELECT`, in its order. */
  function SelectTokens(select: Select): seq<byte> {
    ProjectionTokens(select.projection) + FromTokens(select.from) + WhereTokens(select.selection)
  }

  /** `SELECT id FROM t …` over names that are not numbers: neither projection nor table yields a byte. */
  function IdFromT(where: Expr): Select {
    Select([UnnamedExpr(Identifier("id"))], [TableWithJoins(Table(ObjectName("t", [])))], Some(where))
  }

  /** The prefix every example query shares contributes nothing. */
  lemma IdFromTPrefix(where: Expr)
    ensures SelectTokens(IdFromT(where)) == SelectionTokens(where)
  {
    assert [UnnamedExpr(Identifier("id"))][..0] == [];
    assert [TableWithJoins(Table(ObjectName("t", [])))][..0] == [];
    LetterRejected("id");
    LetterRejected("t");
  }

  /**
   * `SELECT id FROM t WHERE flag = TRUE` keeps only `b'='`: `flag` is not a
   * number, and the boolean literal (an `OtherValue` here) is not an identifier.
   */
  lemma ExampleComparison()
    ensures SelectTokens(IdFromT(BinaryOp(Identifier("flag"), Eq, Value(OtherValue)))) == ['=' as int]
  {
    IdFromTPrefix(BinaryOp(Identifier("flag"), Eq, Value(OtherValue)));
    BinaryOpShape(Identifier("flag"), Eq, Value(OtherValue));
    LetterRejected("flag");
    MarkerBytes();
  }

  /** `SELECT id FROM t WHERE id BETWEEN 2 AND 3` keeps only `b'B'`: its bounds are literals, not identifiers. */
  lemma ExampleBetween()
    ensures SelectTokens(IdFromT(Between(Identifier("id"), false, Value(Number("2", false)), Value(Number("3", false)))))
         == ['B' as int]
  {
    var low, high := Value(Number("2", false)), Value(Number("3", false));
    IdFromTPrefix(Between(Identifier("id"), false, low, high));
    LetterRejected("id");
    assert ValueTokens(Identifier("id")) + ValueTokens(low) + ValueTokens(high) == [];
    MarkerBytes();
  }

  /** The list `(1, 2)` contributes the bytes 1 and 2. */
  lemma InListOneTwo()
    ensures InListTokens([Value(Number("1", false)), Value(Number("2", false))]) == [1, 2]
  {
    assert ParseU8("1") == Ok(1) && ParseU8("2") == Ok(2);
    InListNumbers([Value(Number("1", false)), Value(Number("2", false))], [1, 2]);
  }

  /** `SELECT id FROM t WHERE id IN (1, 2)` keeps the two numbers, then `b'I'`. */
  lemma ExampleIn()
    ensures SelectTokens(IdFromT(InList(Identifier("id"), [Value(Number("1", false)), Value(Number("2", false))], false)))
         == [1, 2, 'I' as int]
  {
    var two := [Value(Number("1", false)), Value(Number("2", false))];
    IdFromTPrefix(InList(Identifier("id"), two, false));
    InListShape(Identifier("id"), two, false);
    InListOneTwo();
  }
}

/**
 * How SQL reads a string literal: text between single quotes, in which a
 * doubled quote `''` stands for one quote character. `ReadLiteralList` reads
 * the comma-separated literal list of a `VALUES (…)` clause. This is the
 * reader against which the INSERT text is judged; `Quote` is the writer
 * that reads back exactly.
 */
module SqlLiteral {
  import opened Prelude
  import opened RustStr

  /**
   * The body of a literal, after its opening quote: the value up to the
   * closing quote and the text after it; `None` when the literal is not
   * closed.
   */
  function ReadBody(s: string): (r: Option<(string, string)>)
    ensures r.Some? ==> |r.value.1| < |s|
    decreases |s|
  {
    if s == [] then None
    else if s[0] == '\'' then
      if |s| >= 2 && s[1] == '\'' then
        match ReadBody(s[2..])
        case None => None
        case Some((v, rest)) => Some((['\''] + v, rest))
      else Some(("", s[1..]))
    else
      match ReadBody(s[1..])
      case None => None
      case Some((v, rest)) => Some(([s[0]] + v, rest))
  }

  /** One literal at the start of `s`: its value and the text after it. */
  function ReadLiteral(s: string): (r: Option<(string, string)>)
    ensures r.Some? ==> |r.value.1| < |s|
  {
    if |s| > 0 && s[0] == '\'' then ReadBody(s[1..]) else None
  }

  /** One or more literals separated by `,` and filling all of `s`. */
  function ReadLiterals(s: string): Option<seq<string>>
    decreases |s|
  {
    match ReadLiteral(s)
    case None => None
    case Some((v, rest)) =>
      if rest == "" then Some([v])
      else if rest[0] == ',' then
        match ReadLiterals(rest[1..])
        case None => None
        case Some(vs) => Some([v] + vs)
      else None
  }

  /** A comma-separated list of literals, possibly empty, filling all of `s`. */
  function ReadLiteralList(s: string): Option<seq<string>> {
    if s == "" then Some([]) else ReadLiterals(s)
  }

  /** Every quote doubled. */
  function Escape(v: string): (e: string)
    ensures |e| >= |v|
    decreases |v|
  {
    if v == [] then [] else (if v[0] == '\'' then "''" else [v[0]]) + Escape(v[1..])
  }

  /** A value without quotes is its own escape. */
  lemma {:induction false} EscapeNoQuote(v: string)
    requires '\'' !in v
    ensures Escape(v) == v
    decreases |v|
  {
    if v != [] {
      EscapeNoQuote(v[1..]);
      assert v == [v[0]] + v[1..];
    }
  }

  /** The literal that reads back as `v`. */
  function Quote(v: string): string {
    "'" + Escape(v) + "'"
  }

  /** Quoting each value. */
  function QuoteAll(vs: seq<string>): (qs: seq<string>)
    ensures |qs| == |vs|
    ensures forall i :: 0 <= i < |vs| ==> qs[i] == Quote(vs[i])
  {
    seq(|vs|, i requires 0 <= i < |vs| => Quote(vs[i]))
  }

  /** An escaped body followed by the closing quote reads back as the value. */
  lemma {:induction false} ReadEscaped(v: string, rest: string)
    requires rest == [] || rest[0] != '\''
    ensures ReadBody(Escape(v) + "'" + rest) == Some((v, rest))
    decreases |v|
  {
    var s := Escape(v) + "'" + rest;
    if v == [] {
      assert s == "'" + rest;
      assert s[1..] == rest;
    } else {
      ReadEscaped(v[1..], rest);
      var tail := Escape(v[1..]) + "'" + rest;
      if v[0] == '\'' {
        assert s == "''" + tail;
        assert s[2..] == tail;
      } else {
        assert s == [v[0]] + tail;
        assert s[1..] == tail;
      }
      assert v == [v[0]] + v[1..];
    }
  }

  /** `Quote` is read back exactly, whatever follows that does not start with a quote. */
  lemma ReadQuoted(v: string, rest: string)
    requires rest == [] || rest[0] != '\''
    ensures ReadLiteral(Quote(v) + rest) == Some((v, rest))
  {
    ReadEscaped(v, rest);
    assert (Quote(v) + rest)[1..] == Escape(v) + "'" + rest;
  }

  /** A non-empty list of quoted values joined by `,` reads back as the values. */
  lemma {:induction false} ReadQuotedLiterals(vs: seq<string>)
    requires |vs| > 0
    ensures ReadLiterals(Join(QuoteAll(vs), ",")) == Some(vs)
    decreases |vs|
  {
    var qs := QuoteAll(vs);
    if |vs| == 1 {
      ReadQuoted(vs[0], "");
      assert Quote(vs[0]) + "" == Quote(vs[0]) == Join(qs, ",");
      assert vs == [vs[0]];
    } else {
      var tail := Join(qs[1..], ",");
      assert qs[1..] == QuoteAll(vs[1..]);
      ReadQuotedLiterals(vs[1..]);
      ReadQuoted(vs[0], "," + tail);
      assert Join(qs, ",") == Quote(vs[0]) + ("," + tail) by {
        ConcatAssoc(qs[0], ",", tail);
      }
      assert ("," + tail)[1..] == tail;
      assert vs == [vs[0]] + vs[1..];
    }
  }

  /** Any list of values, the empty one included, survives quoting, joining and reading back. */
  lemma ReadQuotedList(vs: seq<string>)
    ensures ReadLiteralList(Join(QuoteAll(vs), ",")) == Some(vs)
  {
    if |vs| > 0 {
      ReadQuotedLiterals(vs);
      assert |Join(QuoteAll(vs), ",")| > 0 by {
        assert |QuoteAll(vs)[0]| >= 2;
        JoinStartsWithFirst(QuoteAll(vs), ",");
      }
    }
  }
}

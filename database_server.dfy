/**
 * The SQL text that the database server builds from a CSV file.
 *
 * `ensure_table` maps each header `name:type` to a column definition and,
 * when the table does not exist yet, builds a `CREATE TABLE` statement from
 * them; `load_table_from_csv` builds one `INSERT` statement per record. Only
 * the texts are modelled: whether the table exists is an input, and running
 * a statement is not part of this model.
 */
module DatabaseServer {
  import opened Prelude
  import opened RustStr
  import opened SqlLiteral

  /** The one `rusqlite::Error` the mapping reports, `ExecuteReturnedResults`. */
  datatype SqlError = ExecuteReturnedResults

  /** The name of the table `ensure_table` creates. */
  const TableName: string := "dynamic_table"

  /** The name of the table the as-written `INSERT` text targets. */
  const InsertTableAsWritten: string := "my_table"

  /** The text after the name for a CSV type name, if it is one of the three known ones. */
  function TypeSuffix(ty: string): (r: Option<string>)
    ensures r.Some? <==> ty in {"uint32", "bool", "string"}
    ensures r.Some? ==> |r.value| > 1 && r.value[0] == ' '
  {
    if ty == "uint32" then Some(" INTEGER")
    else if ty == "bool" then Some(" BOOLEAN")
    else if ty == "string" then Some(" TEXT")
    else None
  }

  /** The column definition for one header: split on `:` into exactly a name and a known type. */
  function ColumnDefinition(header: string): (r: Result<string, SqlError>)
    ensures r.Ok? ==> Count(header, ':') == 1 && ':' !in r.value
  {
    var parts := Split(header, ':');
    if |parts| != 2 then Err(ExecuteReturnedResults)
    else match TypeSuffix(parts[1])
      case Some(t) => Ok(parts[0] + t)
      case None => Err(ExecuteReturnedResults)
  }

  /** A header without a colon, or with two or more, is rejected. */
  lemma ColumnDefinitionColons(header: string)
    requires Count(header, ':') != 1
    ensures ColumnDefinition(header) == Err(ExecuteReturnedResults)
  {
  }

  /**
   * A header `name:ty` with one colon maps to `name INTEGER`, `name BOOLEAN`
   * or `name TEXT` for the three known types and is rejected otherwise.
   */
  lemma ColumnDefinitionOfPair(name: string, ty: string)
    requires ':' !in name && ':' !in ty
    ensures ColumnDefinition(name + ":" + ty)
         == if ty == "uint32" then Ok(name + " INTEGER")
            else if ty == "bool" then Ok(name + " BOOLEAN")
            else if ty == "string" then Ok(name + " TEXT")
            else Err(ExecuteReturnedResults)
  {
    SplitPair(name, ty, ':');
  }

  /** Every accepted header is `name:ty` of that shape, so the two lemmas above cover all headers. */
  lemma ColumnDefinitionAccepted(header: string)
    requires ColumnDefinition(header).Ok?
    ensures Count(header, ':') == 1
    ensures var parts := Split(header, ':');
      header == parts[0] + ":" + parts[1] && TypeSuffix(parts[1]).Some?
      && ColumnDefinition(header).value == parts[0] + TypeSuffix(parts[1]).value
  {
    SplitTwo(header, ':');
  }

  /**
   * `headers.iter().map(…).collect::<Result<Vec<String>, _>>()`: the
   * definitions in header order, or the first error.
   */
  function ColumnDefinitions(headers: seq<string>): (r: Result<seq<string>, SqlError>)
    ensures r.Ok? ==> |r.value| == |headers|
    decreases |headers|
  {
    if headers == [] then Ok([])
    else match ColumnDefinition(headers[0])
      case Err(e) => Err(e)
      case Ok(d) =>
        match ColumnDefinitions(headers[1..])
        case Err(e) => Err(e)
        case Ok(ds) => Ok([d] + ds)
  }

  /** Every header maps to a column definition. */
  predicate AllAccepted(headers: seq<string>) {
    forall i :: 0 <= i < |headers| ==> ColumnDefinition(headers[i]).Ok?
  }

  /** The definitions of accepted headers, position by position. */
  function Definitions(headers: seq<string>): (defs: seq<string>)
    requires AllAccepted(headers)
    ensures |defs| == |headers|
    ensures forall i :: 0 <= i < |headers| ==> Ok(defs[i]) == ColumnDefinition(headers[i])
  {
    seq(|headers|, i requires 0 <= i < |headers| => ColumnDefinition(headers[i]).value)
  }

  /**
   * The batch succeeds exactly when every header does, one bad header failing
   * it, and then holds header `i`'s definition at position `i`.
   */
  lemma {:induction false} ColumnDefinitionsAll(headers: seq<string>)
    ensures ColumnDefinitions(headers).Ok? <==> AllAccepted(headers)
    ensures AllAccepted(headers) ==> ColumnDefinitions(headers) == Ok(Definitions(headers))
    decreases |headers|
  {
    if headers != [] {
      ColumnDefinitionsAll(headers[1..]);
      assert forall i :: 1 <= i < |headers| ==> headers[i] == headers[1..][i - 1];
      if AllAccepted(headers) {
        assert Definitions(headers) == [Definitions(headers)[0]] + Definitions(headers[1..]);
      }
    }
  }

  /** The `CREATE TABLE` text for a list of column definitions. */
  function CreateTableSql(columns: seq<string>): (sql: string)
    ensures var head := "CREATE TABLE " + TableName + " (id INTEGER PRIMARY KEY AUTOINCREMENT, ";
      && |sql| == |head| + |Join(columns, ", ")| + 2 && sql[..|head|] == head
      && sql[|head|..|sql| - 2] == Join(columns, ", ") && sql[|sql| - 2..] == ");"
  {
    "CREATE TABLE " + TableName + " (id INTEGER PRIMARY KEY AUTOINCREMENT, " + Join(columns, ", ") + ");"
  }

  /**
   * `ensure_table`: nothing to do when the table exists; otherwise the
   * `CREATE TABLE` text over the headers' definitions, or the mapping's
   * error when any header is rejected.
   */
  function EnsureTable(tableExists: bool, headers: seq<string>): (r: Result<Option<string>, SqlError>)
    ensures tableExists ==> r == Ok(None)
    ensures !tableExists && !AllAccepted(headers) ==> r == Err(ExecuteReturnedResults)
    ensures !tableExists && AllAccepted(headers) ==> r == Ok(Some(CreateTableSql(Definitions(headers))))
  {
    ColumnDefinitionsAll(headers);
    if tableExists then Ok(None)
    else match ColumnDefinitions(headers)
      case Err(e) => assert e == ExecuteReturnedResults; Err(e)
      case Ok(columns) => Ok(Some(CreateTableSql(columns)))
  }

  // The INSERT text as `load_table_from_csv` writes it.

  /** `format!("'{}'", v)`: the value between quotes, as it is. */
  function QuoteAsWritten(v: string): (q: string)
    ensures |q| == |v| + 2 && q[0] == '\'' && q[|q| - 1] == '\'' && q[1..|q| - 1] == v
  {
    "'" + v + "'"
  }

  /** The quoted values joined by `,`, as written. */
  function ValuesTextAsWritten(record: seq<string>): (s: string)
    ensures record == [] ==> s == ""
    ensures |record| == 1 ==> s == QuoteAsWritten(record[0])
  {
    Join(seq(|record|, i requires 0 <= i < |record| => QuoteAsWritten(record[i])), ",")
  }

  /** The `INSERT` text of one record, as written: the raw headers, into `my_table`. */
  function InsertSqlAsWritten(headers: seq<string>, record: seq<string>): (sql: string)
    ensures var head := "INSERT INTO " + InsertTableAsWritten + " (" + Join(headers, ",") + ") VALUES (";
      && |sql| == |head| + |ValuesTextAsWritten(record)| + 2 && sql[..|head|] == head
      && sql[|head|..|sql| - 2] == ValuesTextAsWritten(record) && sql[|sql| - 2..] == ");"
  {
    "INSERT INTO " + InsertTableAsWritten + " (" + Join(headers, ",") + ") VALUES (" + ValuesTextAsWritten(record) + ");"
  }

  /** One `INSERT` per record, in record order, as `load_table_from_csv` writes them. */
  function InsertStatements(headers: seq<string>, records: seq<seq<string>>): (ss: seq<string>)
    ensures |ss| == |records|
    ensures forall i :: 0 <= i < |records| ==> ss[i] == InsertSqlAsWritten(headers, records[i])
  {
    seq(|records|, i requires 0 <= i < |records| => InsertSqlAsWritten(headers, records[i]))
  }

  /**
   * `load_table_from_csv`: the statements it executes, in order. First
   * `ensure_table`'s `CREATE TABLE` when the table is missing, then one
   * `INSERT` per record. It fails, executing nothing, when `ensure_table`
   * fails.
   */
  function LoadTableStatements(tableExists: bool, headers: seq<string>, records: seq<seq<string>>): (r: Result<seq<string>, SqlError>)
    ensures r.Ok? <==> tableExists || AllAccepted(headers)
    ensures !r.Ok? ==> r == Err(ExecuteReturnedResults)
    ensures r.Ok? ==> |r.value| == |records| + (if tableExists then 0 else 1)
    ensures r.Ok? && !tableExists ==> r.value[0] == CreateTableSql(Definitions(headers))
    ensures r.Ok? ==> r.value[|r.value| - |records|..] == InsertStatements(headers, records)
  {
    match EnsureTable(tableExists, headers)
    case Err(e) => Err(e)
    case Ok(create) =>
      var inserts := InsertStatements(headers, records);
      if create.Some? then
        assert ([create.value] + inserts)[1..] == inserts;
        Ok([create.value] + inserts)
      else Ok(inserts)
  }

  /** On values without a quote the as-written values text is the escaped one, and reads back as the record. */
  lemma ValuesTextAsWrittenNoQuote(record: seq<string>)
    requires forall i :: 0 <= i < |record| ==> '\'' !in record[i]
    ensures ValuesTextAsWritten(record) == ValuesText(record)
    ensures ReadLiteralList(ValuesTextAsWritten(record)) == Some(record)
  {
    forall i | 0 <= i < |record|
      ensures QuoteAsWritten(record[i]) == Quote(record[i])
    {
      EscapeNoQuote(record[i]);
    }
    assert seq(|record|, i requires 0 <= i < |record| => QuoteAsWritten(record[i])) == QuoteAll(record);
  }

  /**
   * A value with a quote inside, as in `O'Brien`, ends its literal at that
   * quote: the literal reads as the text before the quote, and the values
   * text of a record holding it no longer reads as a list at all.
   */
  lemma ValuesTextAsWrittenBreaks(a: string, b: string)
    requires '\'' !in a
    requires |b| > 0 && b[0] != '\'' && b[0] != ','
    ensures ReadLiteral(QuoteAsWritten(a + "'" + b)) == Some((a, b + "'"))
    ensures ReadLiteralList(ValuesTextAsWritten([a + "'" + b])) == None
  {
    var v := a + "'" + b;
    EscapeNoQuote(a);
    ReadEscaped(a, b + "'");
    assert QuoteAsWritten(v)[1..] == Escape(a) + "'" + (b + "'");
    assert ValuesTextAsWritten([v]) == QuoteAsWritten(v);
    assert (b + "'")[0] == b[0];
  }

  /**
   * The as-written `INSERT` names `my_table`, which `ensure_table` does not
   * create, and its column list is the raw headers, each of which differs
   * from the column name `CREATE TABLE` defines for it.
   */
  lemma InsertColumnsAsWritten(headers: seq<string>)
    requires |headers| > 0 && AllAccepted(headers)
    requires forall i :: 0 <= i < |headers| ==> ',' !in headers[i]
    ensures InsertTableAsWritten != TableName
    ensures Split(Join(headers, ","), ',') == headers
    ensures forall i :: 0 <= i < |headers| ==> headers[i] != ColumnNames(headers)[i]
  {
    SplitJoin(headers, ',');
    forall i | 0 <= i < |headers|
      ensures headers[i] != ColumnNames(headers)[i]
    {
      ColumnDefinitionAccepted(headers[i]);
      var parts := Split(headers[i], ':');
      assert ':' !in parts[0];
      assert headers[i][|parts[0]|] == ':';
    }
  }

  // The INSERT text with the intended table, columns and quoting.

  /** The column names of the headers: the part before the first `:`. */
  function ColumnNames(headers: seq<string>): (names: seq<string>)
    ensures |names| == |headers|
    ensures forall i :: 0 <= i < |headers| ==> names[i] == Split(headers[i], ':')[0]
  {
    seq(|headers|, i requires 0 <= i < |headers| => Split(headers[i], ':')[0])
  }

  /** The values list: every value a literal that reads back as itself. */
  function ValuesText(record: seq<string>): (s: string)
    ensures ReadLiteralList(s) == Some(record)
  {
    ReadQuotedList(record);
    Join(QuoteAll(record), ",")
  }

  /** The `INSERT` text of one record into the created table, naming its columns. */
  function InsertSql(headers: seq<string>, record: seq<string>): (sql: string)
    ensures var head := "INSERT INTO " + TableName + " (" + Join(ColumnNames(headers), ",") + ") VALUES (";
      && |sql| == |head| + |ValuesText(record)| + 2 && sql[..|head|] == head
      && ReadLiteralList(sql[|head|..|sql| - 2]) == Some(record) && sql[|sql| - 2..] == ");"
  {
    "INSERT INTO " + TableName + " (" + Join(ColumnNames(headers), ",") + ") VALUES (" + ValuesText(record) + ");"
  }

  /**
   * Whenever `ensure_table` accepts the headers, the column list of the
   * corrected `INSERT` names exactly the columns the `CREATE TABLE` defines,
   * in order (each definition is the name, a space and the type), provided
   * no name holds a `,`.
   */
  lemma InsertColumnsMatchCreate(headers: seq<string>)
    requires |headers| > 0 && AllAccepted(headers)
    requires forall i :: 0 <= i < |headers| ==> ',' !in ColumnNames(headers)[i]
    ensures Split(Join(ColumnNames(headers), ","), ',') == ColumnNames(headers)
    ensures forall i :: 0 <= i < |headers| ==>
      var name, def := ColumnNames(headers)[i], Definitions(headers)[i];
      |name| < |def| && def[..|name|] == name && def[|name|] == ' '
  {
    SplitJoin(ColumnNames(headers), ',');
    forall i | 0 <= i < |headers|
      ensures var name, def := ColumnNames(headers)[i], Definitions(headers)[i];
        |name| < |def| && def[..|name|] == name && def[|name|] == ' '
    {
      ColumnDefinitionAccepted(headers[i]);
    }
  }

  /** One corrected `INSERT` per record, in record order. */
  function InsertStatementsCorrected(headers: seq<string>, records: seq<seq<string>>): (ss: seq<string>)
    ensures |ss| == |records|
    ensures forall i :: 0 <= i < |records| ==> ss[i] == InsertSql(headers, records[i])
  {
    seq(|records|, i requires 0 <= i < |records| => InsertSql(headers, records[i]))
  }

  /**
   * `load_table_from_csv` with the intended text: the `CREATE TABLE` if
   * needed, then one corrected `INSERT` per record.
   */
  function LoadTableStatementsCorrected(tableExists: bool, headers: seq<string>, records: seq<seq<string>>): (r: Result<seq<string>, SqlError>)
    ensures r.Ok? <==> tableExists || AllAccepted(headers)
    ensures r.Ok? ==> |r.value| == |records| + (if tableExists then 0 else 1)
    ensures r.Ok? && !tableExists ==> r.value[0] == CreateTableSql(Definitions(headers))
    ensures r.Ok? ==> r.value[|r.value| - |records|..] == InsertStatementsCorrected(headers, records)
  {
    match EnsureTable(tableExists, headers)
    case Err(e) => Err(e)
    case Ok(create) =>
      var inserts := InsertStatementsCorrected(headers, records);
      if create.Some? then
        assert ([create.value] + inserts)[1..] == inserts;
        Ok([create.value] + inserts)
      else Ok(inserts)
  }

  /**
   * The as-written and the corrected loads fail on the same inputs and run
   * the same `CREATE TABLE`; they differ only in their `INSERT` statements.
   */
  lemma LoadTableAsWrittenVsCorrected(tableExists: bool, headers: seq<string>, records: seq<seq<string>>)
    ensures var w, c := LoadTableStatements(tableExists, headers, records),
                       LoadTableStatementsCorrected(tableExists, headers, records);
      && (w.Ok? <==> c.Ok?)
      && (w.Ok? ==> |w.value| == |c.value| && w.value[..|w.value| - |records|] == c.value[..|c.value| - |records|])
  {
  }
}

/**
 * The in-memory row store `Tables` and the server side `run_fhe_query`.
 *
 * `Tables` maps a table name to its rows; a row maps a column name to the
 * text of its value. `run_fhe_query` walks every table, every row and every
 * column, and encrypts each value whose text is a `u8` literal. Rust's
 * `HashMap` iterates in an unspecified order, so the walk picks keys with
 * `:|` and its result is specified up to order: as the multiset of the
 * values it encrypts, the fold `TablesValues`, which the lemmas show does not
 * depend on the order in which the keys are taken.
 */
module RowStore {
  import opened Prelude
  import opened ParseInt
  import opened Fhe
  import opened QueryEncoder

  /** `HashMap<String, String>`: column name to value text. */
  type Row = map<string, string>

  /** `EncryptedResult`: the ciphertexts `run_fhe_query` returns. */
  datatype EncryptedResult = EncryptedResult(result: seq<FheUint8>)

  /** The store: table name to the list of its rows. */
  class Tables {
    var tables: map<string, seq<Row>>

    /** `Tables::new()`: no tables. */
    constructor ()
      ensures tables == map[]
      ensures Valid()
    {
      tables := map[];
    }

    /** Every table that exists holds at least one row. */
    predicate Valid()
      reads this
    {
      forall name :: name in tables ==> |tables[name]| > 0
    }

    /**
     * `insert_row`: append `row` to the table's list, creating the list
     * `[row]` when the table is not there yet.
     */
    method InsertRow(tableName: string, row: Row)
      modifies this
      ensures tables == Inserted(old(tables), tableName, row)
      ensures old(Valid()) ==> Valid()
    {
      if tableName in tables {
        tables := tables[tableName := tables[tableName] + [row]];
      } else {
        tables := tables[tableName := [row]];
      }
    }
  }

  /** The store after `insert_row(tableName, row)`. */
  function Inserted(t: map<string, seq<Row>>, tableName: string, row: Row): (r: map<string, seq<Row>>)
    ensures r.Keys == t.Keys + {tableName}
    ensures forall name :: name in t && name != tableName ==> r[name] == t[name]
  {
    if tableName in t then t[tableName := t[tableName] + [row]] else t[tableName := [row]]
  }

  /**
   * The table a row was inserted into grows by exactly that row, placed last,
   * or is created holding only that row.
   */
  lemma InsertedTable(t: map<string, seq<Row>>, tableName: string, row: Row)
    ensures var r := Inserted(t, tableName, row);
      && |r[tableName]| == (if tableName in t then |t[tableName]| + 1 else 1)
      && r[tableName][|r[tableName]| - 1] == row
      && r[tableName][..|r[tableName]| - 1] == (if tableName in t then t[tableName] else [])
  {
    var r := Inserted(t, tableName, row);
    if tableName in t {
      assert r[tableName][..|r[tableName]| - 1] == t[tableName];
    }
  }

  /** The values of a value text: one `u8` if it parses, none otherwise. */
  function ParsedValue(text: string): (vs: multiset<byte>)
    ensures |vs| <= 1
    ensures ParseU8(text).Ok? ==> vs == multiset{ParseU8(text).value}
    ensures ParseU8(text).Err? ==> vs == multiset{}
  {
    match ParseU8(text)
    case Ok(n) => multiset{n}
    case Err(_) => multiset{}
  }

  /** The union of `f` over the values of a map, taken in some order of its keys. */
  ghost function Fold<K, V>(m: map<K, V>, f: V -> multiset<byte>): multiset<byte>
    decreases m.Keys
  {
    if m == map[] then multiset{} else
      var k :| k in m;
      f(m[k]) + Fold(m - {k}, f)
  }

  /** `Fold` may take any key first: its value does not depend on the order of the keys. */
  lemma {:induction false} FoldPick<K, V>(m: map<K, V>, f: V -> multiset<byte>, k: K)
    requires k in m
    ensures Fold(m, f) == f(m[k]) + Fold(m - {k}, f)
    decreases m.Keys
  {
    var j :| j in m && Fold(m, f) == f(m[j]) + Fold(m - {j}, f);
    if j != k {
      FoldPick(m - {j}, f, k);
      FoldPick(m - {k}, f, j);
      assert m - {j} - {k} == m - {k} - {j};
    }
  }

  /** The `u8` values of one row. */
  ghost function RowValues(row: Row): multiset<byte> {
    Fold(row, ParsedValue)
  }

  /** The `u8` values of a list of rows. */
  ghost function RowsValues(rows: seq<Row>): multiset<byte>
    decreases |rows|
  {
    if rows == [] then multiset{} else RowsValues(rows[..|rows| - 1]) + RowValues(rows[|rows| - 1])
  }

  /** Appending a row adds its values. */
  lemma RowsValuesSnoc(rows: seq<Row>, row: Row)
    ensures RowsValues(rows + [row]) == RowsValues(rows) + RowValues(row)
  {
    assert (rows + [row])[..|rows|] == rows;
  }

  /** The `u8` values of the whole store. */
  ghost function TablesValues(t: map<string, seq<Row>>): multiset<byte> {
    Fold(t, RowsValues)
  }

  /** The rows stored under a name; none when the table does not exist. */
  function RowsOf(t: map<string, seq<Row>>, tableName: string): (rows: seq<Row>)
    ensures tableName !in t ==> rows == []
  {
    if tableName in t then t[tableName] else []
  }

  /** The store's values split into those of one table and those of the rest. */
  lemma TablesValuesSplit(t: map<string, seq<Row>>, tableName: string)
    ensures TablesValues(t) == RowsValues(RowsOf(t, tableName)) + Fold(t - {tableName}, RowsValues)
  {
    if tableName in t {
      FoldPick(t, RowsValues, tableName);
    } else {
      assert t - {tableName} == t;
    }
  }

  /** `insert_row` adds exactly the new row's values to the store. */
  lemma TablesValuesAfterInsert(t: map<string, seq<Row>>, tableName: string, row: Row)
    ensures TablesValues(Inserted(t, tableName, row)) == TablesValues(t) + RowValues(row)
  {
    var r := Inserted(t, tableName, row);
    assert RowsOf(r, tableName) == RowsOf(t, tableName) + [row];
    assert r - {tableName} == t - {tableName};
    TablesValuesSplit(r, tableName);
    TablesValuesSplit(t, tableName);
    RowsValuesSnoc(RowsOf(t, tableName), row);
  }

  /** A store with no tables holds no values. */
  lemma EmptyTablesNoValues()
    ensures TablesValues(map[]) == multiset{}
  {
  }

  /** The inner loop of `run_fhe_query`: encrypt the `u8` values of one row, in the map's order. */
  method EncryptRow(row: Row) returns (cs: seq<FheUint8>)
    ensures multiset(DecryptAll(cs)) == RowValues(row)
  {
    ghost var plain: seq<byte> := [];
    cs := [];
    var rest := row;
    while rest != map[]
      invariant cs == EncryptAll(plain)
      invariant multiset(plain) + RowValues(rest) == RowValues(row)
      decreases rest.Keys
    {
      var column :| column in rest;
      FoldPick(rest, ParsedValue, column);
      match ParseU8(rest[column]) {
        case Ok(num) =>
          EncryptAllAppend(plain, [num]);
          cs := cs + [Encrypt(num)];
          plain := plain + [num];
        case Err(_) =>
      }
      rest := rest - {column};
    }
    RoundTrip(plain, cs);
  }

  /** The middle loop of `run_fhe_query`: the rows of one table, in list order. */
  method EncryptRows(rows: seq<Row>) returns (cs: seq<FheUint8>)
    ensures multiset(DecryptAll(cs)) == RowsValues(rows)
  {
    ghost var plain: seq<byte> := [];
    cs := [];
    for i := 0 to |rows|
      invariant cs == EncryptAll(plain)
      invariant multiset(plain) == RowsValues(rows[..i])
    {
      var rowCs := EncryptRow(rows[i]);
      TakeSnoc(rows, i);
      RowsValuesSnoc(rows[..i], rows[i]);
      RoundTrip(plain, rowCs);
      EncryptAllAppend(plain, DecryptAll(rowCs));
      plain := plain + DecryptAll(rowCs);
      cs := cs + rowCs;
    }
    assert rows[..|rows|] == rows;
    RoundTrip(plain, cs);
  }

  /**
   * `run_fhe_query`: one ciphertext per stored value that parses as `u8`,
   * decrypting to that value. The query is not consulted, and the call
   * always succeeds.
   */
  method RunFheQuery(input: EncryptedQuery, data: Tables) returns (r: Result<EncryptedResult, Unit>)
    ensures r.Ok?
    ensures multiset(DecryptAll(r.value.result)) == TablesValues(data.tables)
  {
    ghost var plain: seq<byte> := [];
    var results: seq<FheUint8> := [];
    var rest := data.tables;
    while rest != map[]
      invariant results == EncryptAll(plain)
      invariant multiset(plain) + TablesValues(rest) == TablesValues(data.tables)
      decreases rest.Keys
    {
      var tableName :| tableName in rest;
      FoldPick(rest, RowsValues, tableName);
      var tableCs := EncryptRows(rest[tableName]);
      RoundTrip(plain, tableCs);
      EncryptAllAppend(plain, DecryptAll(tableCs));
      plain := plain + DecryptAll(tableCs);
      results := results + tableCs;
      rest := rest - {tableName};
    }
    RoundTrip(plain, results);
    r := Ok(EncryptedResult(results));
  }
}

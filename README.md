# encrypted_sql, modelled in Dafny

encrypted_sql is a small demonstration of running SQL over data encrypted with
fully homomorphic encryption (TFHE). A client parses a `SELECT` query and
lowers it into a flat vector of encrypted bytes (`EncryptedQuery`). A server
walks its in-memory row store (`Tables`) and returns one ciphertext per
stored value that reads as a `u8` (`run_fhe_query`). The client decrypts that
result and reads it as UTF-8 (`decrypt_result`). A SQLite side
(`database_server`) builds a `CREATE TABLE` statement from `name:type` CSV
headers and builds one `INSERT` statement per CSV record.

The model has these modules:

- `Fhe` abstracts `FheUint8` as an injective constructor `Encrypt` with
  inverse `Decrypt`.
- `ParseInt` models Rust's `str::parse::<u8>`.
- `Utf8` models `str::bytes()` and `String::from_utf8`, following RFC 3629.
- `SqlAst` holds the part of the `sqlparser` syntax tree the encoder reads.
- `QueryEncoder` models `encrypt_query`, `handle_selection`,
  `encrypt_binary_op` and `encrypt_value`. They are methods pushing onto a
  shared vector (`CipherBuffer`). Each is proved against a function that
  gives the plaintext bytes it appends.
- `EncoderProperties` states what those functions promise.
- `RowStore` models the `Tables` class, `insert_row` and `run_fhe_query`.
  Rust's `HashMap` iterates in an unspecified order, so the result is
  specified as a multiset. It is given by an order-independent fold over
  the maps.
- `ResultDecoder` models `decrypt_result`.
- `RustStr` models `split` and `join`.
- `SqlLiteral` is a reader for SQL string literals. It is used to judge the
  `INSERT` text.
- `DatabaseServer` models the SQL text built by `ensure_table` and
  `load_table_from_csv`.

## Model

| member | source | states |
|---|---|---|
| Fhe.Decrypt | src/main.rs:305 | decryption of a ciphertext gives the byte it encrypts |
| Fhe.EncryptAll | src/main.rs:45 | encrypting a byte sequence keeps length and position: ciphertext `i` decrypts to byte `i` |
| Fhe.DecryptAll | src/main.rs:303-308 | decrypting a ciphertext sequence keeps length and position |
| Fhe.RoundTrip | src/main.rs:303-308 | decryption undoes encryption on whole sequences and conversely |
| Fhe.EncryptAllAppend | src/main.rs:34-72 | encrypting a concatenation is the concatenation of the encryptions, in order |
| Fhe.EncryptAllSnoc | src/main.rs:110 | pushing one more encrypted byte extends the encryption of the plaintext by that byte |
| ParseInt.DigitValue | src/main.rs:44 | an ASCII digit has a value below 10 |
| ParseInt.Unsigned | src/main.rs:44 | dropping the optional leading `+` never lengthens the text |
| ParseInt.Accumulate | src/main.rs:44 | the checked digit loop never lowers the accumulator and never reports `Empty` |
| ParseInt.ParseU8 | src/main.rs:44 | `str::parse::<u8>` reports `Empty` exactly on the empty text; its full meaning is `ParseU8Correct` |
| ParseInt.PrefixValueAtMost | src/main.rs:44 | the value of a prefix of a digit string is at most the value of the whole string |
| ParseInt.AccumulateFrom | src/main.rs:44 | the checked digit loop resumed after any prefix of value ≤ 255 gives the whole value when it is ≤ 255 and `PosOverflow` otherwise |
| ParseInt.AccumulateRejectsNonDigit | src/main.rs:44 | a non-digit anywhere makes the digit loop fail |
| ParseInt.ParseU8Correct | src/main.rs:44 | `parse::<u8>` succeeds exactly on an optional `+` followed by one or more digits of value ≤ 255, and then gives that decimal value |
| ParseInt.LetterRejected | src/main.rs:164 | a name starting with a letter, as identifiers do, never parses as a `u8` |
| ParseInt.ParseU8Overflow | src/main.rs:44 | an all-digit text above 255 fails with `PosOverflow`, not `InvalidDigit` |
| ParseInt.ParseU8Examples | src/main.rs:44 | the error kinds and values of `parse::<u8>` on empty text, lone signs, `-0`, `+7`, `007`, `255`, `256`, `a1` and `999a` |
| Utf8.EncodeChar | src/main.rs:127 | one character encodes to one to four bytes |
| Utf8.Encode | src/main.rs:127 | a string's encoding has between one and four bytes per character |
| Utf8.LeadingLength | src/main.rs:312 | the length of a well-formed leading character is at most 4 and at most the bytes available |
| Utf8.Valid | src/main.rs:312 | a well-formed sequence never starts with a continuation byte, `0xC0`/`0xC1` or a byte above `0xF4` |
| Utf8.Decode | src/main.rs:312 | decoding gives at most one character per byte and at least one per four bytes |
| Utf8.Base64Digit | src/main.rs:312 | arithmetic fact splitting a value into a base-64 digit and the rest |
| Utf8.EncodeCharLeading | src/main.rs:312 | a character's encoding is a well-formed character whatever follows it, and decodes back to that character |
| Utf8.TwoByteLeading | src/main.rs:312 | the two-byte encoding case of the above |
| Utf8.ThreeByteLeading | src/main.rs:312 | the three-byte encoding case of the above (no surrogates) |
| Utf8.FourByteLeading | src/main.rs:312 | the four-byte encoding case of the above (nothing above U+10FFFF) |
| Utf8.TwoByteDigits | src/main.rs:312 | the value of a two-byte row lies in U+0080..U+07FF, and its digits are the payloads |
| Utf8.ThreeByteDigits | src/main.rs:312 | the digits of a three-byte row's value are its payloads |
| Utf8.FourByteDigits | src/main.rs:312 | the digits of a four-byte row's value are its payloads |
| Utf8.DecodeCharEncodes | src/main.rs:312 | a well-formed character is the encoding of the character it decodes to |
| Utf8.TwoByteEncodes | src/main.rs:312 | the two-byte case of the above |
| Utf8.ThreeByteEncodes | src/main.rs:312 | the three-byte case of the above |
| Utf8.FourByteEncodes | src/main.rs:312 | the four-byte case of the above |
| Utf8.EncodeValid | src/main.rs:312 | every string's encoding is well formed and decodes back to the string |
| Utf8.DecodeEncodes | src/main.rs:312 | every well-formed byte sequence is the encoding of what it decodes to |
| Utf8.EncodeCons | src/main.rs:127 | encoding one character followed by a string encodes the character, then the string |
| Utf8.ValidIffEncoding | src/main.rs:312 | a byte sequence is well formed exactly when it is the encoding of some string |
| Utf8.EncodeAppend | src/main.rs:127-129 | the encoding of a concatenation is the concatenation of the encodings |
| Utf8.InvalidExamples | src/main.rs:312 | a stray continuation byte, `0xFF`, an overlong form, a surrogate, a value above U+10FFFF and a truncated sequence are all rejected |
| Utf8.AsciiDecodes | src/main.rs:312 | bytes below 0x80 are well formed and decode one character per byte, with the same value |
| Utf8.FromUtf8 | src/main.rs:312-313 | `String::from_utf8` succeeds exactly on well-formed bytes, returning the string they encode; otherwise its error carries the bytes |
| Utf8.FromUtf8Encode | src/main.rs:312 | reading back the encoding of any string gives that string |
| SqlAst.BinaryOperator.Text | src/main.rs:104 | every binary operator's display text is non-empty ASCII, so `as_bytes()[0]` exists |
| SqlAst.UnaryOperator.Text | src/main.rs:108-110 | every unary operator's display text is non-empty |
| QueryEncoder.CipherBuffer.constructor | src/main.rs:34 | the vector starts empty |
| QueryEncoder.CipherBuffer.Push | src/main.rs:45 | a push appends exactly one ciphertext and changes nothing else |
| QueryEncoder.EncryptValue | src/main.rs:162-169 | appends the encryption of the identifier's `u8` value when its text parses, and nothing otherwise |
| QueryEncoder.EncryptBinaryOp | src/main.rs:153-159 | appends the left operand's bytes, the right operand's bytes and the operator's first byte, in that order |
| QueryEncoder.HandleSelection | src/main.rs:99-150 | appends exactly the encryption of `SelectionTokens` of the expression and nothing else |
| QueryEncoder.EncryptIn | src/main.rs:113-139 | appends the list's bytes and `b'I'` when the left side is an identifier, and nothing otherwise |
| QueryEncoder.EncryptBetween | src/main.rs:141-147 | appends the three operands' bytes, then `b'B'` |
| QueryEncoder.EncryptInList | src/main.rs:116-136 | the loop over an `IN` list appends each element's bytes in list order |
| QueryEncoder.EncryptInItem | src/main.rs:117-135 | appends a `u8` number's value, or a string literal's UTF-8 bytes, or nothing for any other element |
| QueryEncoder.EncryptBytes | src/main.rs:127-129 | appends the encryption of every byte in order |
| QueryEncoder.EncryptProjection | src/main.rs:40-58 | appends each projection item's bytes in order |
| QueryEncoder.EncryptProjectionItem | src/main.rs:41-57 | appends a `u8` identifier's value, or `b'*'` for either wildcard form, or nothing |
| QueryEncoder.EncryptFrom | src/main.rs:61-67 | appends, for each `FROM` table, the first part of its name when that parses as a `u8`, in order |
| QueryEncoder.EncryptQuery | src/main.rs:29-95 | always `Ok`: the projection's bytes, then the `FROM` list's, then the `WHERE` clause's, all encrypted; empty when the first statement is not a `SELECT` query |
| EncoderProperties.MarkerBytes | src/main.rs:110 | the marker bytes: `N` for NOT, `I` for IN, `B` for BETWEEN, `A`/`O`/`=`/`>` for AND, OR, `=`, `>` and `>=` (which therefore share a byte) |
| EncoderProperties.EncryptValueSpec | src/main.rs:162-169 | `encrypt_value` contributes one byte exactly for an identifier that is a `u8` literal, namely its decimal value |
| EncoderProperties.BinaryOpShape | src/main.rs:153-159 | a binary operation contributes one to three bytes, ending in the operator's first byte; non-identifier operands contribute nothing |
| EncoderProperties.NestedConjunctionEncodesOnlyMarker | src/main.rs:102-104 | `a = 1 AND b = 2` encodes to the single byte `A`: the nested comparisons are not visited |
| EncoderProperties.NotAppendsN | src/main.rs:106-112 | `NOT e` is `e`'s encoding followed by `N` |
| EncoderProperties.NotChain | src/main.rs:106-112 | `k` nested NOTs append `k` bytes `N` after the innermost expression's encoding |
| EncoderProperties.OtherUnaryAppendsNothing | src/main.rs:108 | a unary operator other than NOT contributes nothing and its operand is not visited |
| EncoderProperties.InListSnoc | src/main.rs:116 | one more list element appends that element's bytes |
| EncoderProperties.InListAppend | src/main.rs:116 | the list's bytes come element by element in order (concatenation of lists) |
| EncoderProperties.InListShape | src/main.rs:113-139 | `IN` over an identifier is the list's bytes then `I`; over anything else it is empty |
| EncoderProperties.InListNumbers | src/main.rs:120-124 | a list of `u8` numbers contributes exactly their values in order |
| EncoderProperties.InListSkipsOthers | src/main.rs:131-134 | elements that are not number or string literals contribute nothing |
| EncoderProperties.InListStrings | src/main.rs:126-130 | string literals contribute the UTF-8 bytes of their concatenation, which decode to it; the string boundaries are lost |
| EncoderProperties.BetweenShape | src/main.rs:141-147 | BETWEEN contributes one to four bytes ending in `B`, preceded by the operands' bytes |
| EncoderProperties.NegationDropped | src/main.rs:113-147 | `NOT IN` and `NOT BETWEEN` encode like `IN` and `BETWEEN` |
| EncoderProperties.ProjectionAtMostOnePerItem | src/main.rs:40-58 | each projection item contributes at most one byte |
| EncoderProperties.WildcardProjection | src/main.rs:48-55 | both spellings of `SELECT *` contribute `*` |
| EncoderProperties.FromAtMostOnePerItem | src/main.rs:61-67 | each `FROM` item contributes at most one byte |
| EncoderProperties.IdFromTPrefix | src/main.rs:40-72 | `SELECT id FROM t` contributes nothing before the `WHERE` bytes |
| EncoderProperties.ExampleComparison | src/main.rs:102-104 | `… WHERE flag = TRUE` encodes to the single byte `=`: the boolean literal is not an identifier |
| EncoderProperties.ExampleBetween | src/main.rs:141-147 | `… WHERE id BETWEEN 2 AND 3` encodes to `B` only: literal bounds are not identifiers |
| EncoderProperties.InListOneTwo | src/main.rs:120-124 | the list `(1, 2)` contributes bytes 1 and 2 |
| EncoderProperties.ExampleIn | src/main.rs:113-139 | `… WHERE id IN (1, 2)` encodes to 1, 2, `I` |
| RowStore.Tables.constructor | src/main.rs:193-197 | a new store has no tables, so every table it has holds a row |
| RowStore.Tables.InsertRow | src/main.rs:200-206 | the new store is `Inserted` of the old; a store in which every table has a row stays so |
| RowStore.Inserted | src/main.rs:200-206 | inserting adds the table name to the keys and leaves every other table unchanged |
| RowStore.InsertedTable | src/main.rs:201-205 | the target table grows by one with the row last, or is created holding only the row |
| RowStore.ParsedValue | src/main.rs:288 | a value text contributes its `u8` when it parses and nothing otherwise |
| RowStore.FoldPick | src/main.rs:285-287 | the fold over a map may take any key first: it does not depend on `HashMap` order |
| RowStore.RowsValuesSnoc | src/main.rs:286 | one more row adds that row's values |
| RowStore.RowsOf | src/main.rs:201 | a missing table has no rows |
| RowStore.TablesValuesSplit | src/main.rs:285 | the store's values are one table's values plus the rest's |
| RowStore.TablesValuesAfterInsert | src/main.rs:200-206 | `insert_row` adds exactly the new row's values to the store's values |
| RowStore.EmptyTablesNoValues | src/main.rs:193-197 | a new store holds no values |
| RowStore.EncryptRow | src/main.rs:287-292 | the column loop yields ciphertexts of exactly the row's `u8` values |
| RowStore.EncryptRows | src/main.rs:286-293 | the row loop yields ciphertexts of exactly the rows' `u8` values |
| RowStore.RunFheQuery | src/main.rs:273-297 | always `Ok`; the result decrypts to exactly the multiset of `u8` values in the store, whatever the query |
| ResultDecoder.DecryptResult | src/main.rs:299-314 | fails exactly when the decrypted bytes are not well-formed UTF-8 (the error carries them); otherwise returns the string whose encoding they are, in ciphertext order |
| ResultDecoder.SmallValuesDecode | src/main.rs:312 | result bytes below 0x80 always decode, one character per byte |
| ResultDecoder.LoneHighByteRejected | src/main.rs:312-313 | a single result byte ≥ 0x80 makes the call fail |
| ResultDecoder.DecryptEncryptedText | src/main.rs:303-313 | a text encrypted byte by byte decrypts back to itself |
| RustStr.CountZero | src/database_server/mod.rs:87 | a character occurs nowhere exactly when it is counted zero times |
| RustStr.Split | src/database_server/mod.rs:87 | `split` gives one more piece than separators, none containing the separator |
| RustStr.Join | src/database_server/mod.rs:99 | joining a single part gives that part |
| RustStr.JoinStartsWithFirst | src/database_server/mod.rs:99 | a join starts with its first part |
| RustStr.JoinSplit | src/database_server/mod.rs:87 | joining the pieces of a split gives back the string |
| RustStr.SplitPrefix | src/database_server/mod.rs:87 | a separator-free prefix extends the first piece |
| RustStr.SplitJoin | src/database_server/mod.rs:87 | splitting a join of non-empty, separator-free lists gives back the parts |
| RustStr.SplitTwo | src/database_server/mod.rs:87-88 | with exactly one separator there are two pieces around it |
| RustStr.SplitPair | src/database_server/mod.rs:87-88 | `a:b` with separator-free `a`, `b` splits into `[a, b]` |
| SqlLiteral.ReadBody | src/database_server/mod.rs:66 | reading a literal body consumes input |
| SqlLiteral.ReadLiteral | src/database_server/mod.rs:66 | reading a literal consumes input |
| SqlLiteral.Escape | src/database_server/mod.rs:66 | escaping never shortens |
| SqlLiteral.EscapeNoQuote | src/database_server/mod.rs:66 | a quote-free value is its own escape |
| SqlLiteral.QuoteAll | src/database_server/mod.rs:66 | quoting keeps the number and order of the values |
| SqlLiteral.ReadEscaped | src/database_server/mod.rs:66 | an escaped body and the closing quote read back as the value |
| SqlLiteral.ReadQuoted | src/database_server/mod.rs:66 | a quoted value reads back exactly |
| SqlLiteral.ReadQuotedLiterals | src/database_server/mod.rs:66-67 | a non-empty list of quoted values joined by `,` reads back as the values |
| SqlLiteral.ReadQuotedList | src/database_server/mod.rs:66-67 | any list of values survives quoting, joining and reading back |
| DatabaseServer.TypeSuffix | src/database_server/mod.rs:91-96 | exactly `uint32`, `bool` and `string` are known types |
| DatabaseServer.ColumnDefinition | src/database_server/mod.rs:86-96 | a header is accepted only with exactly one `:`, and its definition contains no `:` |
| DatabaseServer.ColumnDefinitionColons | src/database_server/mod.rs:87-90 | a header without exactly one `:` is rejected with `ExecuteReturnedResults` |
| DatabaseServer.ColumnDefinitionOfPair | src/database_server/mod.rs:91-96 | `name:uint32` gives `name INTEGER`, `name:bool` gives `name BOOLEAN`, `name:string` gives `name TEXT`; any other type is rejected |
| DatabaseServer.ColumnDefinitionAccepted | src/database_server/mod.rs:86-97 | every accepted header is `name:type` with one colon and a known type, and maps to the name plus the type's suffix |
| DatabaseServer.ColumnDefinitions | src/database_server/mod.rs:97 | the collected definitions match the headers one for one |
| DatabaseServer.Definitions | src/database_server/mod.rs:86-97 | position `i` holds header `i`'s definition |
| DatabaseServer.ColumnDefinitionsAll | src/database_server/mod.rs:86-97 | collecting succeeds exactly when every header is accepted, and then gives the definitions in order |
| DatabaseServer.CreateTableSql | src/database_server/mod.rs:99-100 | the text is `CREATE TABLE dynamic_table (id INTEGER PRIMARY KEY AUTOINCREMENT, ` followed by the definitions joined by `, `, then `);` |
| DatabaseServer.EnsureTable | src/database_server/mod.rs:74-107 | nothing when the table exists; otherwise an error when any header is rejected, or the `CREATE TABLE dynamic_table` text over the definitions |
| DatabaseServer.QuoteAsWritten | src/database_server/mod.rs:66 | the value is put between quotes unchanged |
| DatabaseServer.ValuesTextAsWritten | src/database_server/mod.rs:66-67 | no values give an empty list, and one value gives its quoted form alone |
| DatabaseServer.InsertSqlAsWritten | src/database_server/mod.rs:67 | the text is `INSERT INTO my_table (` with the raw headers joined by `,`, then `) VALUES (`, the as-written values text and `);` |
| DatabaseServer.InsertStatements | src/database_server/mod.rs:64-69 | one as-written `INSERT` per record, in record order |
| DatabaseServer.LoadTableStatements | src/database_server/mod.rs:57-71 | fails with `ExecuteReturnedResults` exactly when the table is missing and a header is rejected; otherwise it gives the `CREATE TABLE` when needed, then one as-written `INSERT` per record in order |
| DatabaseServer.ValuesTextAsWrittenNoQuote | src/database_server/mod.rs:66 | on quote-free values the as-written values text equals the escaped one and reads back as the record |
| DatabaseServer.ValuesTextAsWrittenBreaks | src/database_server/mod.rs:66 | a value with an inner quote ends its literal early, and the values text no longer reads as a list |
| DatabaseServer.InsertColumnsAsWritten | src/database_server/mod.rs:67 | the as-written `INSERT` targets `my_table`, not `dynamic_table`, and lists the raw headers, each differing from its created column's name |
| DatabaseServer.ColumnNames | src/database_server/mod.rs:87 | a header's column name is the part before its first `:` |
| DatabaseServer.ValuesText | src/database_server/mod.rs:66 | the corrected values text reads back as exactly the record |
| DatabaseServer.InsertSql | src/database_server/mod.rs:67 | the corrected text inserts into `dynamic_table` under the column names, and its values list reads back as exactly the record |
| DatabaseServer.InsertColumnsMatchCreate | src/database_server/mod.rs:67 | the corrected column list splits back into the created columns' names, each definition being that name, a space and the type |
| DatabaseServer.InsertStatementsCorrected | src/database_server/mod.rs:64-69 | one corrected `INSERT` per record, in record order |
| DatabaseServer.LoadTableStatementsCorrected | src/database_server/mod.rs:57-71 | the same load with the corrected `INSERT` text: same failure condition and `CREATE TABLE`, then one corrected `INSERT` per record |
| DatabaseServer.LoadTableAsWrittenVsCorrected | src/database_server/mod.rs:57-71 | the as-written and corrected loads fail on the same inputs, have the same length and run the same `CREATE TABLE`; only their `INSERT`s differ |

## Left out

- Key generation, the server key, `default_cpu_parameters` and the randomness of real ciphertexts are left out. Encryption is an injective constructor under one client key.
- File I/O is left out: reading the query file, the data directory and the CSV files. The SQL parser is also left out. `EncryptQuery` takes the parsed statements, and `load_table_from_csv` takes the headers and records.
- Running statements through `rusqlite` is left out, and so is the query that checks whether `dynamic_table` exists. Existence is an input (`tableExists`), and the statements are returned as text.
- `load_tables`, `Database::new`, the integer and boolean helpers, `load_from_directory`, `retrieve_table_data` and `main` are left out. They are I/O glue outside the modelled core.
- SqlAst.BinaryOperator.Text: only a subset of sqlparser's operators is modelled. Shifts, `DIV`, the PostgreSQL-specific operators and `Custom(String)` are left out. So is the panic at `as_bytes()[0]` that a `Custom` operator with empty text would cause.
- SqlAst.UnaryOperator.Text: only `+`, `-`, `NOT` and `~` are modelled. sqlparser's other PostgreSQL-specific unary operators are left out.
- The `eprintln!` logging in `encrypt_query` is left out. It writes to standard error and does not affect the result.
- The `Display` impl of `EncryptedQuery` is left out. So are the unused types `Column`, `DataType`, `IntegerType`, `Row` and `Value`.
- RowStore.RunFheQuery: the result is specified as a multiset, not as a sequence, because `HashMap` iteration order is unspecified. The loop over the query's elements, which has an empty body, is left out.
- Utf8.FromUtf8: the error keeps the bytes but not `valid_up_to`/`error_len`.
- DatabaseServer.LoadTableStatementsCorrected: it is not in the source. It is the load with both findings below corrected, next to `LoadTableStatements`, which builds the text as written.
- DatabaseServer.InsertSqlAsWritten and DatabaseServer.InsertSql model the CSV reader's records as given. CSV quoting and parsing are left out.

## Findings

| source | as written | input that shows it | evidently intended | confidence | as-written member | corrected member |
|---|---|---|---|---|---|---|
| src/database_server/mod.rs:66 | each CSV value is wrapped in quotes as it is, with no escaping | a value `O'Brien` | values reach the table as they are in the CSV, so inner quotes are doubled | not executed | DatabaseServer.ValuesTextAsWrittenBreaks | DatabaseServer.ValuesText (in DatabaseServer.LoadTableStatementsCorrected) |
| src/database_server/mod.rs:67 | the `INSERT` names `my_table` and lists the raw `name:type` headers | headers `id:uint32,name:string` | insert into the `dynamic_table` that `ensure_table` creates (line 75), listing the column names defined at line 100 | not executed | DatabaseServer.InsertColumnsAsWritten | DatabaseServer.InsertColumnsMatchCreate (in DatabaseServer.LoadTableStatementsCorrected) |

# TSVInserter core, modelled in Dafny

TSVInserter loads rows from a tab-separated file and inserts them into a database table
whose columns it discovers at run time. This project models the three pieces of logic that
do not depend on the filesystem or the database, and proves what they promise:

- **TSV loading** (`TsvDataSource`), starting from the lines of the file. Empty lines are
  dropped. Each line is split on tab with Java `String.split` semantics, so trailing empty
  fields are removed. The first surviving row is the header. Every later row is zipped with
  it into a map from lower-cased header name to value, and blank values become null. A blank
  header name, a row longer than the header and a file with no rows are the error cases.
  `zipToMap` and `loadDataSource` are methods with loops, proved against the pure
  `ZippedRow` and `Loaded` specifications. Lemmas then establish the promised properties of
  those specifications.
- **Value conversion** (`H2ColumnConverter.conversion`): the switch over `java.sql.Types`
  codes, with the same branch order, the same null behaviour and the same exception
  wrapping. The integer codes parse radix-10 text and check the range of the Java type.
  BOOLEAN and BIT use `Boolean.parseBoolean`. The binary codes use Base16 as in section 8
  of RFC 4648, decoded the way Apache Commons Codec's `Hex.decodeHex` does it. The six
  character codes pass the text through. ARRAY splits on comma. The decimal, floating-point
  and date codes hand the text to library parsers whose results the model keeps opaque.
  Every code without a branch is rejected with "Not support!"; that includes BLOB, CLOB,
  NCLOB and TIMESTAMP_WITH_TIMEZONE.
- **Schema cache** (`TableSchemaCache.getTableDefinition` and both `TableDefinition`
  snapshots). The cache is a class holding an append-only list of definitions. It scans the
  list in order for a table name that matches case-insensitively. On a miss it reads the
  columns from an abstract metadata catalog through a `Connection` object, then appends and
  returns the new definition. The method is proved against the pure `Resolve`
  specification, which gives the result, the new list and the number of catalog queries.

The cache lookup compares table names only and ignores the schema name, as
`getTableDefinition` does (TableSchemaCache.java:50). A table of the same name in a second
schema therefore hits the entry of the first. The column record of the `database` package
carries an integer type and no type name.

Modules and files:

| file | module | models |
|---|---|---|
| wrappers.dfy | Wrappers | `Option` (Java null) and `Result` (a value or the exception thrown) |
| java_strings.dfy | JavaStrings | `toLowerCase`, `trim` and single-character `split` |
| java_parsing.dfy | JavaParsing | `Integer.parseInt` and its siblings, and `toString` |
| hex_codec.dfy | HexCodec | `Hex.decodeHex` and `Hex.encodeHex` |
| h2_column_converter.dfy | H2ColumnConverter | `conversion` and `columnNameWrapper` |
| tsv_data_source.dfy | TsvDataSource | `loadRows` after the read, `wrapAsNull`, `toLower`, `zipToMap` and `loadDataSource` |
| table_definition.dfy | TableDefinitions | both `TableDefinition` classes and both `ColumnDefinition` records |
| table_schema_cache.dfy | SchemaCache | `TableSchemaCache` and the metadata part of a connection |

## Model

| member | source | states |
|---|---|---|
| TsvDataSource.WrapAsNull | src/main/java/net/white/azalea/utils/database/impl/TsvDataSource.java:133-135 | null and blank text (every character at or below space) become null; any other text is returned unchanged, not trimmed |
| TsvDataSource.WrapAsNullTrim | src/main/java/net/white/azalea/utils/database/impl/TsvDataSource.java:134 | the null test is exactly `str == null` or `str.trim()` being empty |
| TsvDataSource.ToLower | src/main/java/net/white/azalea/utils/database/impl/TsvDataSource.java:122-126 | fails with the "Cant set column name" error exactly on a blank header; otherwise returns the header lower-cased and not trimmed |
| TsvDataSource.KeptLineIff | src/main/java/net/white/azalea/utils/database/impl/TsvDataSource.java:108-111 | a line survives both filters exactly when it has a character other than tab: empty and tab-only lines go, a line of spaces stays |
| TsvDataSource.LoadRowsAppend | src/main/java/net/white/azalea/utils/database/impl/TsvDataSource.java:108-111 | the pipeline works line by line: the rows of two concatenated inputs are the two row lists concatenated |
| TsvDataSource.LoadRowsSingle | src/main/java/net/white/azalea/utils/database/impl/TsvDataSource.java:108-111 | one line yields its split fields when it has a non-tab character and nothing otherwise |
| TsvDataSource.LoadRowsShape | src/main/java/net/white/azalea/utils/database/impl/TsvDataSource.java:108-111 | every row has at least one field, no field contains a tab, and there are no more rows than lines |
| TsvDataSource.LoadRowsCons | src/main/java/net/white/azalea/utils/database/impl/TsvDataSource.java:108-111 | the first line contributes its row exactly when it passes both filters, followed by the rows of the rest |
| TsvDataSource.ZipFailureNoneIff | src/main/java/net/white/azalea/utils/database/impl/TsvDataSource.java:92-93 | the zip loop meets no exception exactly when the header has a non-blank name at every index of the row |
| TsvDataSource.ZippedRowOkIff | src/main/java/net/white/azalea/utils/database/impl/TsvDataSource.java:90-96 | `zipToMap` succeeds exactly when the header covers the row |
| TsvDataSource.ZipFailureKind | src/main/java/net/white/azalea/utils/database/impl/TsvDataSource.java:92-93 | the loop's exception is the blank-header IOException when a blank name lies in range; otherwise it is the array index error at the first index past the header |
| TsvDataSource.ZippedRowError | src/main/java/net/white/azalea/utils/database/impl/TsvDataSource.java:92-94 | a failed zip reports a blank header when a field has one; otherwise the row is longer than the header and the error names index `headers.length` |
| TsvDataSource.RowMapKeys | src/main/java/net/white/azalea/utils/database/impl/TsvDataSource.java:91-94 | every lower-cased header name at an index of the row is a key, and every key is such a name |
| TsvDataSource.RowMapValues | src/main/java/net/white/azalea/utils/database/impl/TsvDataSource.java:91-94 | each key holds the wrapped value of the last field whose header lower-cases to it, so a later duplicate header wins |
| TsvDataSource.RowMapSize | src/main/java/net/white/azalea/utils/database/impl/TsvDataSource.java:91-94 | a map has at most one entry per field of its row |
| TsvDataSource.ZippedRowContents | src/main/java/net/white/azalea/utils/database/impl/TsvDataSource.java:90-96 | a successful zip has exactly the lower-cased header names of the row's indices as keys, the last field per key as value, and at most as many keys as fields |
| TsvDataSource.ZipToMap | src/main/java/net/white/azalea/utils/database/impl/TsvDataSource.java:90-96 | the indexed loop returns exactly the map, or throws exactly the first exception, of the zip specification |
| TsvDataSource.RowMapStep | src/main/java/net/white/azalea/utils/database/impl/TsvDataSource.java:93 | one iteration puts field `n` under header `n` lower-cased, overwriting an earlier entry with that key |
| TsvDataSource.ZipFailureFrom | src/main/java/net/white/azalea/utils/database/impl/TsvDataSource.java:92-93 | once an index has thrown, scanning a longer row gives the same exception |
| TsvDataSource.ZippedRowsAllOk | src/main/java/net/white/azalea/utils/database/impl/TsvDataSource.java:70-75 | zipping the data rows succeeds exactly when every row zips |
| TsvDataSource.ZippedRowsValues | src/main/java/net/white/azalea/utils/database/impl/TsvDataSource.java:70-75 | on success there is one map per data row, in file order, each the zip of its row |
| TsvDataSource.ZippedRowsOk | src/main/java/net/white/azalea/utils/database/impl/TsvDataSource.java:69-77 | zipping succeeds exactly when the header covers every data row, and then yields one map per row in order |
| TsvDataSource.ZippedRowsError | src/main/java/net/white/azalea/utils/database/impl/TsvDataSource.java:70-74 | a failure is the error of some row, and every row before it zips |
| TsvDataSource.ZippedRowsStep | src/main/java/net/white/azalea/utils/database/impl/TsvDataSource.java:70-75 | one more loop iteration appends the next row's map, or stops at its error |
| TsvDataSource.ZippedRowsFailureStays | src/main/java/net/white/azalea/utils/database/impl/TsvDataSource.java:73 | once a row has thrown, the rows after it do not change the outcome |
| TsvDataSource.LoadedOk | src/main/java/net/white/azalea/utils/database/impl/TsvDataSource.java:60-78 | loading succeeds exactly when some row survives and the header covers every later row; the result then has one map per surviving row minus one, and every row after the first is emitted even when its text equals the header's |
| TsvDataSource.LoadedError | src/main/java/net/white/azalea/utils/database/impl/TsvDataSource.java:63-74 | a failed load has no surviving row, which is the `rows.get(0)` error, or fails with the error of the first data row that does not zip |
| TsvDataSource.LoadDataSource | src/main/java/net/white/azalea/utils/database/impl/TsvDataSource.java:60-78 | the loop over the rows, skipping the header row only, returns exactly the list or the error of the load specification |
| TsvDataSource.FieldsOfTriple | src/main/java/net/white/azalea/utils/database/impl/TsvDataSource.java:109 | a line of three tab-free fields, the last non-empty, splits into exactly those three |
| TsvDataSource.ThreeColumnRow | src/main/java/net/white/azalea/utils/database/impl/TsvDataSource.java:90-96 | a three-field row under three non-blank names maps each lower-cased name to its wrapped field |
| TsvDataSource.ZippedRowsPair | src/main/java/net/white/azalea/utils/database/impl/TsvDataSource.java:69-75 | two data rows that both zip give their two maps in order |
| TsvDataSource.ThreeColumnRows | src/main/java/net/white/azalea/utils/database/impl/TsvDataSource.java:108-111 | three lines that each have a field become three rows, in order |
| TsvDataSource.ThreeColumnFile | src/test/java/net/white/azalea/utils/database/impl/TsvDataSourceTest.java:20-28 | a header line of three column names and two data lines load into two maps, in order, each keyed by the three lower-cased names, as the test reads `column1` to `column3` of both rows; a blank value reads as null |
| JavaStrings.LowerChar | src/main/java/net/white/azalea/utils/database/impl/TsvDataSource.java:125 | A-Z map to a-z, every other character is unchanged, and no upper-case letter comes out |
| JavaStrings.AsciiLower | src/main/java/net/white/azalea/utils/database/impl/TsvDataSource.java:125 | lower-casing keeps the length and lower-cases each character in place |
| JavaStrings.AsciiLowerIdempotent | src/main/java/net/white/azalea/utils/database/TableDefinition.java:66-67 | lower-casing twice is lower-casing once |
| JavaStrings.TrimStart | src/main/java/net/white/azalea/utils/database/impl/TsvDataSource.java:134 | the result is a suffix, only characters at or below space were removed, and it starts above space |
| JavaStrings.TrimEnd | src/main/java/net/white/azalea/utils/database/impl/TsvDataSource.java:134 | the result is a prefix, only characters at or below space were removed, and it ends above space |
| JavaStrings.TrimEmptyIffBlank | src/main/java/net/white/azalea/utils/database/impl/TsvDataSource.java:134 | `trim` leaves nothing exactly when every character is at or below space |
| JavaStrings.JoinPieces | src/main/java/net/white/azalea/utils/database/impl/TsvDataSource.java:109 | joining the pieces between delimiters with the delimiter gives the text back |
| JavaStrings.PiecesLackDelimiter | src/main/java/net/white/azalea/utils/database/impl/TsvDataSource.java:109 | no piece contains the delimiter |
| JavaStrings.PiecesAllEmptyIff | src/main/java/net/white/azalea/utils/database/impl/TsvDataSource.java:109 | every piece is empty exactly when the text consists only of delimiters |
| JavaStrings.PiecesWithout | src/main/java/net/white/azalea/utils/database/impl/TsvDataSource.java:109 | text without the delimiter is a single piece |
| JavaStrings.PiecesAfter | src/main/java/net/white/azalea/utils/database/impl/TsvDataSource.java:109 | a delimiter after delimiter-free text closes that text as the first piece |
| JavaStrings.DropTrailingEmpty | src/main/java/net/white/azalea/utils/database/impl/TsvDataSource.java:109 | the kept pieces are a prefix, every dropped piece is empty, and the last kept piece is not |
| JavaStrings.SplitEmptyIff | src/main/java/net/white/azalea/utils/database/impl/TsvDataSource.java:110 | `split` yields no field exactly when the text is non-empty and consists only of the delimiter |
| JavaStrings.SplitFields | src/main/java/net/white/azalea/utils/database/impl/TsvDataSource.java:109 | text without the delimiter splits into itself; otherwise the fields are the leading pieces, the dropped pieces are empty, and no field holds the delimiter |
| JavaParsing.DigitsValue | src/main/java/net/white/azalea/utils/database/converters/H2ColumnConverter.java:50 | a digit string has a value exactly when every character is an ASCII digit |
| JavaParsing.NatDigits | src/main/java/net/white/azalea/utils/database/converters/H2ColumnConverter.java:50 | the printed form of a natural number is non-empty, all digits, and has no leading zero |
| JavaParsing.DigitsOfNat | src/main/java/net/white/azalea/utils/database/converters/H2ColumnConverter.java:50 | reading back the printed digits of a natural number gives the number |
| JavaParsing.ParseToString | src/main/java/net/white/azalea/utils/database/converters/H2ColumnConverter.java:50 | `parseInt(toString(n))` is `n` for every integer, negative ones included |
| JavaParsing.LeadingZero | src/main/java/net/white/azalea/utils/database/converters/H2ColumnConverter.java:50 | a leading zero does not change the value of a digit string |
| JavaParsing.LeadingZeros | src/main/java/net/white/azalea/utils/database/converters/H2ColumnConverter.java:50 | any number of leading zeros does not change the value, so with `ParseToString` the value of every digit string is fixed |
| JavaParsing.LeadingZeroExamples | src/main/java/net/white/azalea/utils/database/converters/H2ColumnConverter.java:50 | "007" parses to 7 and "-00" to 0 |
| JavaParsing.SignedParse | src/main/java/net/white/azalea/utils/database/converters/H2ColumnConverter.java:50 | a leading '+' changes nothing, and a leading '-' negates |
| JavaParsing.DigitsValueBound | src/main/java/net/white/azalea/utils/database/converters/H2ColumnConverter.java:50 | a string of k digits denotes less than 10^k |
| JavaParsing.ParseInRange | src/main/java/net/white/azalea/utils/database/converters/H2ColumnConverter.java:49-59 | the typed parse succeeds exactly when the text is present, parses and lies in the type's range, and then gives the parsed number |
| JavaParsing.ParseExamples | src/test/java/net/white/azalea/utils/database/TableInserterTest.java:103 | "65535", "8192" and "-128" parse to their values; "", "-" and "1a" are rejected |
| HexCodec.HexDigit | src/main/java/net/white/azalea/utils/database/converters/H2ColumnConverter.java:77 | a hex digit denotes a nibble below 16 |
| HexCodec.LowerHexChar | src/main/java/net/white/azalea/utils/database/converters/H2ColumnConverter.java:77 | the lower-case digit written for a nibble reads back as that nibble |
| HexCodec.UpperHexChar | src/main/java/net/white/azalea/utils/database/converters/H2ColumnConverter.java:77 | the upper-case digit reads back as the nibble and lower-cases to the lower-case digit |
| HexCodec.EncodeHex | src/main/java/net/white/azalea/utils/database/converters/H2ColumnConverter.java:77 | encoding writes two characters per byte, so its length is even |
| HexCodec.EncodeHexUpper | src/main/java/net/white/azalea/utils/database/converters/H2ColumnConverter.java:77 | the upper-case encoding also writes two characters per byte, so its length is even |
| HexCodec.DecodePairsOkIff | src/main/java/net/white/azalea/utils/database/converters/H2ColumnConverter.java:77 | the pair loop succeeds exactly on text made of hex digits |
| HexCodec.DecodePairsValue | src/main/java/net/white/azalea/utils/database/converters/H2ColumnConverter.java:77 | a decode gives one byte per pair, and those bytes encode back to the text lower-cased |
| HexCodec.DecodePairsError | src/main/java/net/white/azalea/utils/database/converters/H2ColumnConverter.java:77 | a failed decode names the first non-hex character and its index in the whole input |
| HexCodec.HexDigitInverse | src/main/java/net/white/azalea/utils/database/converters/H2ColumnConverter.java:77 | the lower-case digit of a digit's nibble is the digit lower-cased |
| HexCodec.DecodeHexCorrect | src/main/java/net/white/azalea/utils/database/converters/H2ColumnConverter.java:77 | decoding succeeds exactly on even-length hex text; an odd length is reported before any character; otherwise the first bad character is reported |
| HexCodec.DecodePairsOfEncoding | src/main/java/net/white/azalea/utils/database/converters/H2ColumnConverter.java:77 | the pair loop inverts both encodings at any offset |
| HexCodec.DecodeEncode | src/main/java/net/white/azalea/utils/database/converters/H2ColumnConverter.java:77 | encoding then decoding is the identity, in either letter case |
| H2ColumnConverter.IntegerConversion | src/main/java/net/white/azalea/utils/database/converters/H2ColumnConverter.java:49-59 | TINYINT, SMALLINT, INTEGER and BIGINT succeed exactly on present text that parses into the 8-, 16-, 32- or 64-bit range; they give the parsed number, and every failure is a NumberFormatException |
| H2ColumnConverter.IntegerRoundTrip | src/main/java/net/white/azalea/utils/database/converters/H2ColumnConverter.java:49-59 | every number in a column's range survives printing followed by conversion |
| H2ColumnConverter.BooleanConversion | src/main/java/net/white/azalea/utils/database/converters/H2ColumnConverter.java:51-53 | BOOLEAN and BIT never fail: true exactly for "true" in any letter case, false otherwise and for null |
| H2ColumnConverter.BinaryConversion | src/main/java/net/white/azalea/utils/database/converters/H2ColumnConverter.java:74-77 | the binary codes succeed exactly on even-length hex text, giving half as many bytes that re-encode to the text lower-cased; an odd length and a bad character fail as wrapped decoder errors; null is a NullPointerException |
| H2ColumnConverter.BinaryRoundTrip | src/main/java/net/white/azalea/utils/database/converters/H2ColumnConverter.java:74-77 | the hex text of any bytes, in either case, converts back to those bytes |
| H2ColumnConverter.CharacterConversion | src/main/java/net/white/azalea/utils/database/converters/H2ColumnConverter.java:78-84 | the six character codes return the value unchanged, null included |
| H2ColumnConverter.ArrayConversion | src/main/java/net/white/azalea/utils/database/converters/H2ColumnConverter.java:85-86 | ARRAY gives the comma split with no item holding a comma, gives the whole text when it has no comma, and fails on null |
| H2ColumnConverter.UnsupportedConversion | src/main/java/net/white/azalea/utils/database/converters/H2ColumnConverter.java:87-92 | the conversion fails with "Not support!" exactly for the codes without a branch, BLOB, CLOB, NCLOB and TIMESTAMP_WITH_TIMEZONE among them, whatever the value |
| H2ColumnConverter.ConversionOutcomes | src/main/java/net/white/azalea/utils/database/converters/H2ColumnConverter.java:46-97 | parse errors come only from the date codes and decoder errors only from the binary codes, both wrapped; NumberFormatException comes only from the numeric codes and escapes unwrapped; only the character codes pass text through; null fails only where it is dereferenced |
| H2ColumnConverter.LibraryConversion | src/main/java/net/white/azalea/utils/database/converters/H2ColumnConverter.java:60-73 | the decimal, floating and date codes return the library's result; a rejection is a NumberFormatException for numbers and a wrapped ParseException for dates; null is a NullPointerException |
| H2ColumnConverter.InsertionTestValues | src/test/java/net/white/azalea/utils/database/TableInserterTest.java:102-119 | "65535" and "8192" convert to those integers, "true" and "false" to those booleans, and "line1" stays text |
| H2ColumnConverter.ColumnNameWrapper | src/main/java/net/white/azalea/utils/database/converters/H2ColumnConverter.java:100-103 | the column name is returned unchanged |
| TableDefinitions.NewTable | src/main/java/net/white/azalea/utils/database/TableDefinition.java:46-48 | the two-argument constructor stores both names and starts with no columns, in both snapshots (the `schema` one at lines 28-30) |
| TableDefinitions.NewTableWithColumns | src/main/java/net/white/azalea/utils/database/TableDefinition.java:50-57 | the three-argument constructor stores schema name, table name and columns as given, in both snapshots (the `schema` one at lines 32-39) |
| TableDefinitions.GettersReturnArguments | src/main/java/net/white/azalea/utils/database/TableDefinition.java:33-44 | `getTableName` and `getSchemaName` give back the constructor arguments, for both constructors |
| TableDefinitions.IsSameNameCharwise | src/main/java/net/white/azalea/utils/database/TableDefinition.java:65-68 | names match exactly when they have the same length and agree at every index after lower-casing; the `schema` snapshot's `isSameName` (lines 47-50) is the same |
| TableDefinitions.IsSameNameReflexive | src/main/java/net/white/azalea/utils/database/TableDefinition.java:65-68 | a definition matches its own table name |
| TableDefinitions.IsSameNameIgnoresCase | src/main/java/net/white/azalea/utils/database/TableDefinition.java:65-68 | lower-casing the argument first does not change the answer |
| TableDefinitions.IsSameNameTransfer | src/main/java/net/white/azalea/utils/database/TableDefinition.java:65-68 | two definitions that match the same name match each other's names |
| TableDefinitions.IsSameNameIgnoresSchemaAndColumns | src/main/java/net/white/azalea/utils/database/schema/TableDefinition.java:47-50 | neither the schema name nor the columns affect the match |
| SchemaCache.ColumnsOf | src/main/java/net/white/azalea/utils/database/TableSchemaCache.java:59-65 | one column definition per metadata row, in catalog order, carrying that row's name, type and size |
| SchemaCache.ReadColumns | src/main/java/net/white/azalea/utils/database/TableSchemaCache.java:59-65 | the `rs.next()` loop builds exactly that column list |
| SchemaCache.FindFirst | src/main/java/net/white/azalea/utils/database/TableSchemaCache.java:49-53 | the index found is a match with no match before it, and there is none exactly when no entry matches |
| SchemaCache.Connection.GetColumns | src/main/java/net/white/azalea/utils/database/TableSchemaCache.java:57-58 | one metadata query, answered by the catalog |
| SchemaCache.ResolveHit | src/main/java/net/white/azalea/utils/database/TableSchemaCache.java:49-53 | a hit returns the first match in insertion order, leaves the list unchanged and makes no catalog query |
| SchemaCache.ResolveMiss | src/main/java/net/white/azalea/utils/database/TableSchemaCache.java:56-71 | a miss makes one query; on success the new definition has the given schema and table names and the catalog's columns in order, and is appended and returned; an SQLException leaves the list unchanged |
| SchemaCache.ResolveAppendOnly | src/main/java/net/white/azalea/utils/database/TableSchemaCache.java:69 | the list grows by at most one entry at the end, earlier entries keep their values and order, and it grows exactly on a miss the catalog answers |
| SchemaCache.ResolveKeepsDistinct | src/main/java/net/white/azalea/utils/database/TableSchemaCache.java:49-69 | if no two entries have matching names before a lookup, none do after it |
| SchemaCache.ResolveIdempotent | src/main/java/net/white/azalea/utils/database/TableSchemaCache.java:49-71 | after a successful lookup, a second one under any letter case and any schema name returns the same definition, changes nothing and makes no query |
| SchemaCache.TableSchemaCache.constructor | src/main/java/net/white/azalea/utils/database/TableSchemaCache.java:33-35 | a new cache has an empty list |
| SchemaCache.TableSchemaCache.GetTableDefinition | src/main/java/net/white/azalea/utils/database/TableSchemaCache.java:46-72 | the scan-then-append method returns, stores and queries exactly as the resolution specification says, and keeps names distinct |

## Left out

- Reading the file (`Files.newBufferedReader`, the charset, the splitting into lines) is I/O. The model starts from the sequence of lines, and `reader.lines()` never yields null, so the `v != null` filter has nothing to remove.
- `toLowerCase` is modelled as the plain ASCII case mapping: A-Z become a-z and nothing else changes. That is what `String.toLowerCase()` does for ASCII text in a default locale such as English or the root locale, and the model assumes such a locale. In a Turkish or Azeri default locale Java maps even ASCII 'I' to dotless 'ı' (U+0131), so a header "ID" would give the key "ıd" and `isSameName("id")` on a table named "ID" would be false. The model does not capture that. Java also lower-cases letters outside ASCII, which the model leaves unchanged.
- `Boolean.parseBoolean`'s case-insensitive compare, `Character.digit` in `parseInt` and the hex decoder are modelled on ASCII only. In Java they treat some characters outside ASCII as letters or digits; the model does not.
- Dafny strings are sequences of Unicode scalar values, while Java strings are sequences of UTF-16 code units. Every length and index in the model counts scalar values. For text with a character above U+FFFF (outside the Basic Multilingual Plane), `decodeHex`'s odd-length test and its reported index therefore differ from Java's. Text with no character above U+FFFF has the same lengths and indices in both.
- `String.split` is modelled only in its single-character form, for tab and comma. That is the only form the code uses.
- `new BigDecimal`, `Double.parseDouble`, `Float.parseFloat` and the three `SimpleDateFormat` fields are parameters returning opaque handles. Floating point, decimal arithmetic, date patterns and the time zone are library behaviour outside the model.
- H2ColumnConverter.Conversion: decoded binary values are bytes 0-255, not Java's signed `byte[]` view. The signed view carries the same bits.
- The `getInstance` singleton is hidden global state, so the cache is constructed explicitly.
- No synchronisation is modelled. The code has none, and concurrent scan-then-append is out of scope.
- `getMetaData().getColumns(...)` is a foreign call, modelled as a catalog function from (schema, table) to the rows or an SQLException. An exception raised partway through the rows is folded into that one error, which leaves the list unchanged exactly as any exception before `add` does.
- The `rs.getInt("TYPE_NAME")` call belongs to the JDBC boundary. The catalog supplies the integer type column directly.
- The metadata query counter on `Connection` is not part of the Java class. It exists only to state that a hit asks the database nothing.
- Java object identity is modelled as value equality. The cache returns "the same object" as the same value. The header check `strs == headers` in `loadDataSource` is modelled as skipping row index 0 only.
- In Java the new definition's column list is filled in place after construction. The model reads the columns first and then constructs the definition. Nothing observes the definition in between.
- `isSameName(null)` and a null table name throw NullPointerException in Java. Table names are non-null strings here.
- `TableInserter`, `DataSource` and `ColumnConverter` hold no logic: a constructor and two interfaces.
- Both `ColumnDefinition` classes are field-only records, modelled as datatypes with no operations.
- `HashMap` and `LinkedList` are modelled as a Dafny `map` and `seq`. Iteration order of the map is not modelled.

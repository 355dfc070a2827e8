/** The H2 column converter: a dispatch over `java.sql.Types` codes that turns the text of
    one field into the value bound to the INSERT statement, or fails. */
module H2ColumnConverter {
  import opened Wrappers
  import opened JavaStrings
  import opened JavaParsing
  import opened HexCodec

  // The `java.sql.Types` codes the converter names.
  const BIT: int := -7
  const TINYINT: int := -6
  const BIGINT: int := -5
  const LONGVARBINARY: int := -4
  const VARBINARY: int := -3
  const BINARY: int := -2
  const LONGVARCHAR: int := -1
  const CHAR: int := 1
  const NUMERIC: int := 2
  const DECIMAL: int := 3
  const INTEGER: int := 4
  const SMALLINT: int := 5
  const FLOAT: int := 6
  const REAL: int := 7
  const DOUBLE: int := 8
  const VARCHAR: int := 12
  const BOOLEAN: int := 16
  const DATE: int := 91
  const TIME: int := 92
  const TIMESTAMP: int := 93
  const ARRAY: int := 2003
  const BLOB: int := 2004
  const CLOB: int := 2005
  const NCHAR: int := -15
  const NVARCHAR: int := -9
  const LONGNVARCHAR: int := -16
  const NCLOB: int := 2011
  const TIMESTAMP_WITH_TIMEZONE: int := 2014

  newtype int8 = x: int | -0x80 <= x < 0x80
  newtype int16 = x: int | -0x8000 <= x < 0x8000
  newtype int32 = x: int | -0x8000_0000 <= x < 0x8000_0000
  newtype int64 = x: int | -0x8000_0000_0000_0000 <= x < 0x8000_0000_0000_0000

  /** A parse done by a Java library whose result is not modelled: the opaque value it
      produced is a handle, and None means the library rejected the text. */
  type LibraryParser = string -> Option<nat>

  /** `new BigDecimal`, `Double.parseDouble` and `Float.parseFloat`; each rejection is a
      NumberFormatException. */
  datatype JavaLibrary = JavaLibrary(bigDecimal: LibraryParser, parseDouble: LibraryParser, parseFloat: LibraryParser)

  /** The converter's three `SimpleDateFormat` fields, fixed by its constructor from the
      patterns and the time zone; each rejection is a ParseException. */
  datatype Converter = Converter(datetimeFormatter: LibraryParser, dateFormatter: LibraryParser, timeFormatter: LibraryParser)

  /** What `conversion` returns, one constructor per Java result class. */
  datatype Value =
    | IntegerValue(i: int32)               // Integer
    | BooleanValue(b: bool)                // Boolean
    | ByteValue(i8: int8)                  // Byte
    | ShortValue(i16: int16)               // Short
    | LongValue(i64: int64)                // Long
    | LibraryValue(dataType: int, handle: nat)  // BigDecimal, Double, Float or Date
    | BinaryValue(bytes: seq<byte>)        // byte[]
    | TextValue(text: Option<string>)      // the String itself, null included
    | ArrayValue(items: seq<string>)       // String[]

  /** How `conversion` fails. Only ParseException and DecoderException are wrapped into an
      IOException; NumberFormatException and NullPointerException escape as they are. */
  datatype ConversionError =
    | NumberFormat                           // NumberFormatException, propagated
    | NullPointer                            // NullPointerException on a null value
    | NotSupported                           // IOException("Not support!")
    | WrappedParse                           // IOException wrapping a ParseException
    | WrappedDecoder(cause: DecoderError)    // IOException wrapping a DecoderException

  predicate IsIntegerType(dataType: int) {
    dataType == INTEGER || dataType == TINYINT || dataType == SMALLINT || dataType == BIGINT
  }

  predicate IsLibraryNumberType(dataType: int) {
    dataType == NUMERIC || dataType == DECIMAL || dataType == FLOAT || dataType == DOUBLE || dataType == REAL
  }

  predicate IsDateTimeType(dataType: int) {
    dataType == TIME || dataType == DATE || dataType == TIMESTAMP
  }

  predicate IsBinaryType(dataType: int) {
    dataType == BINARY || dataType == VARBINARY || dataType == LONGVARBINARY
  }

  predicate IsCharacterType(dataType: int) {
    dataType == CHAR || dataType == VARCHAR || dataType == LONGVARCHAR ||
    dataType == NCHAR || dataType == NVARCHAR || dataType == LONGNVARCHAR
  }

  /** The codes the switch has a returning branch for. */
  predicate IsSupportedType(dataType: int) {
    IsIntegerType(dataType) || dataType == BOOLEAN || dataType == BIT || IsLibraryNumberType(dataType) ||
    IsDateTimeType(dataType) || IsBinaryType(dataType) || IsCharacterType(dataType) || dataType == ARRAY
  }

  /** The value range of the Java type each integer code parses into. */
  function IntegerBounds(dataType: int): (bounds: (int, int))
    requires IsIntegerType(dataType)
  {
    if dataType == TINYINT then (-0x80, 0x7f)
    else if dataType == SMALLINT then (-0x8000, 0x7fff)
    else if dataType == INTEGER then (-0x8000_0000, 0x7fff_ffff)
    else (-0x8000_0000_0000_0000, 0x7fff_ffff_ffff_ffff)
  }

  /** `Boolean.parseBoolean`: true exactly for "true" in any letter case; null is false. */
  function ParseBoolean(value: Option<string>): bool {
    value.Some? && AsciiLower(value.value) == "true"
  }

  /** A branch handled by a library parse: null throws NullPointerException before parsing. */
  function LibraryParse(parser: LibraryParser, dataType: int, value: Option<string>, rejected: ConversionError): Result<Value, ConversionError> {
    match value
    case None => Err(NullPointer)
    case Some(s) =>
      match parser(s)
      case None => Err(rejected)
      case Some(handle) => Ok(LibraryValue(dataType, handle))
  }

  /** `H2ColumnConverter.conversion(dataType, value)`, branch for branch. */
  function Conversion(converter: Converter, library: JavaLibrary, dataType: int, value: Option<string>): Result<Value, ConversionError> {
    if dataType == INTEGER then
      match ParseInRange(value, -0x8000_0000, 0x7fff_ffff)
      case None => Err(NumberFormat)
      case Some(n) => Ok(IntegerValue(n as int32))
    else if dataType == BOOLEAN || dataType == BIT then
      Ok(BooleanValue(ParseBoolean(value)))
    else if dataType == TINYINT then
      match ParseInRange(value, -0x80, 0x7f)
      case None => Err(NumberFormat)
      case Some(n) => Ok(ByteValue(n as int8))
    else if dataType == SMALLINT then
      match ParseInRange(value, -0x8000, 0x7fff)
      case None => Err(NumberFormat)
      case Some(n) => Ok(ShortValue(n as int16))
    else if dataType == BIGINT then
      match ParseInRange(value, -0x8000_0000_0000_0000, 0x7fff_ffff_ffff_ffff)
      case None => Err(NumberFormat)
      case Some(n) => Ok(LongValue(n as int64))
    else if dataType == NUMERIC || dataType == DECIMAL then
      LibraryParse(library.bigDecimal, dataType, value, NumberFormat)
    else if dataType == FLOAT || dataType == DOUBLE then
      LibraryParse(library.parseDouble, dataType, value, NumberFormat)
    else if dataType == REAL then
      LibraryParse(library.parseFloat, dataType, value, NumberFormat)
    else if dataType == TIME then
      LibraryParse(converter.timeFormatter, dataType, value, WrappedParse)
    else if dataType == DATE then
      LibraryParse(converter.dateFormatter, dataType, value, WrappedParse)
    else if dataType == TIMESTAMP then
      LibraryParse(converter.datetimeFormatter, dataType, value, WrappedParse)
    else if IsBinaryType(dataType) then
      match value
      case None => Err(NullPointer)
      case Some(s) =>
        match DecodeHex(s)
        case Err(e) => Err(WrappedDecoder(e))
        case Ok(bytes) => Ok(BinaryValue(bytes))
    else if IsCharacterType(dataType) then
      Ok(TextValue(value))
    else if dataType == ARRAY then
      match value
      case None => Err(NullPointer)
      case Some(s) => Ok(ArrayValue(JavaSplit(s, ',')))
    else
      Err(NotSupported)
  }

  /** `columnNameWrapper`: H2 needs no quoting, so the name is returned as it is. */
  function ColumnNameWrapper(columnName: string): (r: string)
    ensures r == columnName
  {
    columnName
  }

  /** The integer a conversion result holds, whatever its width. */
  function IntegralValue(v: Value): Option<int> {
    match v
    case IntegerValue(i) => Some(i as int)
    case ByteValue(i) => Some(i as int)
    case ShortValue(i) => Some(i as int)
    case LongValue(i) => Some(i as int)
    case _ => None
  }

  /** TINYINT, SMALLINT, INTEGER and BIGINT parse signed radix-10 text into the 8-, 16-, 32-
      and 64-bit ranges; anything else, null included, is a NumberFormatException. */
  lemma IntegerConversion(converter: Converter, library: JavaLibrary, dataType: int, value: Option<string>)
    requires IsIntegerType(dataType)
    ensures var r := Conversion(converter, library, dataType, value);
      var (lo, hi) := IntegerBounds(dataType);
      && (r.Ok? <==> value.Some? && ParseDecimal(value.value).Some? && lo <= ParseDecimal(value.value).value <= hi)
      && (r.Ok? ==> IntegralValue(r.value) == ParseDecimal(value.value))
      && (r.Err? ==> r.error == NumberFormat)
  {
  }

  /** Every number of the column's range survives `toString` followed by the conversion. */
  lemma IntegerRoundTrip(converter: Converter, library: JavaLibrary, dataType: int, n: int)
    requires IsIntegerType(dataType) && IntegerBounds(dataType).0 <= n <= IntegerBounds(dataType).1
    ensures var r := Conversion(converter, library, dataType, Some(ToDecimalString(n)));
      r.Ok? && IntegralValue(r.value) == Some(n)
  {
    ParseToString(n);
    IntegerConversion(converter, library, dataType, Some(ToDecimalString(n)));
  }

  /** BOOLEAN and BIT never fail: true exactly for "true" ignoring case. */
  lemma BooleanConversion(converter: Converter, library: JavaLibrary, dataType: int, value: Option<string>)
    requires dataType == BOOLEAN || dataType == BIT
    ensures Conversion(converter, library, dataType, value) ==
            Ok(BooleanValue(value.Some? && AsciiLower(value.value) == "true"))
  {
  }

  /** The three binary codes hex-decode; failures are wrapped decoder errors. */
  lemma BinaryConversion(converter: Converter, library: JavaLibrary, dataType: int, value: Option<string>)
    requires IsBinaryType(dataType)
    ensures var r := Conversion(converter, library, dataType, value);
      && (value.None? ==> r == Err(NullPointer))
      && (value.Some? ==> (r.Ok? <==> |value.value| % 2 == 0 && IsHexText(value.value)))
      && (value.Some? && |value.value| % 2 != 0 ==> r == Err(WrappedDecoder(OddNumberOfCharacters)))
      && (r.Ok? ==> r.value.BinaryValue? && |r.value.bytes| * 2 == |value.value| &&
                    EncodeHex(r.value.bytes) == AsciiLower(value.value))
      && (r.Err? && value.Some? ==> r.error.WrappedDecoder?)
  {
    if value.Some? {
      DecodeHexCorrect(value.value);
    }
  }

  /** Hex text of any bytes, in either case, converts back to those bytes. */
  lemma BinaryRoundTrip(converter: Converter, library: JavaLibrary, dataType: int, bytes: seq<byte>)
    requires IsBinaryType(dataType)
    ensures Conversion(converter, library, dataType, Some(EncodeHex(bytes))) == Ok(BinaryValue(bytes))
    ensures Conversion(converter, library, dataType, Some(EncodeHexUpper(bytes))) == Ok(BinaryValue(bytes))
  {
    DecodeEncode(bytes);
  }

  /** The six character codes return the value unchanged, null included. */
  lemma CharacterConversion(converter: Converter, library: JavaLibrary, dataType: int, value: Option<string>)
    requires IsCharacterType(dataType)
    ensures Conversion(converter, library, dataType, value) == Ok(TextValue(value))
  {
  }

  /** ARRAY splits on ',' as `String.split` does: no item holds a comma, dropped pieces are empty. */
  lemma ArrayConversion(converter: Converter, library: JavaLibrary, value: Option<string>)
    ensures var r := Conversion(converter, library, ARRAY, value);
      && (value.None? ==> r == Err(NullPointer))
      && (value.Some? ==> r == Ok(ArrayValue(JavaSplit(value.value, ','))))
      && (r.Ok? ==> forall i :: 0 <= i < |r.value.items| ==> ',' !in r.value.items[i])
      && (value.Some? && ',' !in value.value ==> r == Ok(ArrayValue([value.value])))
  {
    if value.Some? {
      SplitFields(value.value, ',');
    }
  }

  /** BLOB, CLOB, NCLOB, TIMESTAMP_WITH_TIMEZONE and every unlisted code fail with
      "Not support!", whatever the value; a listed code never does. */
  lemma UnsupportedConversion(converter: Converter, library: JavaLibrary, dataType: int, value: Option<string>)
    ensures !IsSupportedType(dataType) <==> Conversion(converter, library, dataType, value) == Err(NotSupported)
    ensures !IsSupportedType(BLOB) && !IsSupportedType(CLOB) && !IsSupportedType(NCLOB) &&
            !IsSupportedType(TIMESTAMP_WITH_TIMEZONE)
  {
  }

  /** Which codes each failure and the pass-through result can come from: parse errors only
      from the date and time codes, decoder errors only from the binary codes,
      NumberFormatException only from the numeric codes, the raw text only from the
      character codes, and a null value fails only on codes that dereference it. */
  lemma ConversionOutcomes(converter: Converter, library: JavaLibrary, dataType: int, value: Option<string>)
    ensures var r := Conversion(converter, library, dataType, value);
      && (r == Err(WrappedParse) ==> IsDateTimeType(dataType))
      && (r.Err? && r.error.WrappedDecoder? ==> IsBinaryType(dataType))
      && (r == Err(NumberFormat) ==> IsIntegerType(dataType) || IsLibraryNumberType(dataType))
      && (r.Ok? && r.value.TextValue? ==> IsCharacterType(dataType) && r.value.text == value)
      && (r == Err(NullPointer) ==> value.None? && (IsLibraryNumberType(dataType) || IsDateTimeType(dataType) ||
                                                     IsBinaryType(dataType) || dataType == ARRAY))
  {
  }

  /** The library parse each opaque branch hands the text to. */
  function ParserFor(converter: Converter, library: JavaLibrary, dataType: int): LibraryParser
    requires IsLibraryNumberType(dataType) || IsDateTimeType(dataType)
  {
    if dataType == NUMERIC || dataType == DECIMAL then library.bigDecimal
    else if dataType == FLOAT || dataType == DOUBLE then library.parseDouble
    else if dataType == REAL then library.parseFloat
    else if dataType == TIME then converter.timeFormatter
    else if dataType == DATE then converter.dateFormatter
    else converter.datetimeFormatter
  }

  /** Library-parsed codes: null is a NullPointerException, a rejection is a
      NumberFormatException for numbers and a wrapped ParseException for dates. */
  lemma LibraryConversion(converter: Converter, library: JavaLibrary, dataType: int, s: string)
    requires IsLibraryNumberType(dataType) || IsDateTimeType(dataType)
    ensures var r := Conversion(converter, library, dataType, Some(s));
      var parsed := ParserFor(converter, library, dataType)(s);
      && (parsed.Some? ==> r == Ok(LibraryValue(dataType, parsed.value)))
      && (parsed.None? && IsLibraryNumberType(dataType) ==> r == Err(NumberFormat))
      && (parsed.None? && IsDateTimeType(dataType) ==> r == Err(WrappedParse))
    ensures Conversion(converter, library, dataType, None) == Err(NullPointer)
  {
  }

  /** The values the insertion test expects for its INTEGER and BOOLEAN columns. */
  lemma InsertionTestValues(converter: Converter, library: JavaLibrary)
    ensures Conversion(converter, library, INTEGER, Some("65535")) == Ok(IntegerValue(65535))
    ensures Conversion(converter, library, INTEGER, Some("8192")) == Ok(IntegerValue(8192))
    ensures Conversion(converter, library, BOOLEAN, Some("true")) == Ok(BooleanValue(true))
    ensures Conversion(converter, library, BOOLEAN, Some("false")) == Ok(BooleanValue(false))
    ensures Conversion(converter, library, VARCHAR, Some("line1")) == Ok(TextValue(Some("line1")))
  {
    ParseExamples();
    assert AsciiLower("true") == "true";
    assert AsciiLower("false")[0] == 'f';
  }
}

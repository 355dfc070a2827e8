/** The TSV data source after the file has been read: the lines become rows (non-empty
    lines split on tab), the first row is the header, and every other row is zipped with
    it into a map from lower-cased header name to value, blank values becoming null. */
module TsvDataSource {
  import opened Wrappers
  import opened JavaStrings

  const TAB: char := '\t'

  /** One loaded record: lower-cased column name to value, `None` standing for null. */
  type Row = map<string, Option<string>>

  /** How `loadDataSource` fails. */
  datatype TsvError =
    | NoRows                              // `rows.get(0)` on an empty list: IndexOutOfBoundsException
    | BlankHeader                         // IOException("Cant set column name as null or empty.")
    | HeaderIndexOutOfBounds(index: nat)  // `headers[n]` past the header: ArrayIndexOutOfBoundsException

  /** `wrapAsNull`: null, and any text made only of characters at or below space, become
      null; other text is kept untrimmed. */
  function WrapAsNull(str: Option<string>): (r: Option<string>)
    ensures r.None? <==> str.None? || IsBlank(str.value)
    ensures r.Some? ==> r == str
  {
    match str
    case None => None
    case Some(s) => if IsBlank(s) then None else str
  }

  /** The test `wrapAsNull` makes is `str.trim().isEmpty()`. */
  lemma WrapAsNullTrim(str: Option<string>)
    ensures WrapAsNull(str).None? <==> str.None? || |Trim(str.value)| == 0
  {
    if str.Some? {
      TrimEmptyIffBlank(str.value);
    }
  }

  /** `toLower`: a blank header name is rejected, any other is lower-cased (not trimmed). */
  function ToLower(header: string): (r: Result<string, TsvError>)
    ensures r.Err? <==> IsBlank(header)
    ensures r.Err? ==> r.error == BlankHeader
    ensures r.Ok? ==> r.value == AsciiLower(header)
  {
    var test := WrapAsNull(Some(header));
    if test.None? then Err(BlankHeader) else Ok(AsciiLower(test.value))
  }

  /** One line split on tab. */
  function Fields(line: string): seq<string> {
    JavaSplit(line, TAB)
  }

  /** The stream pipeline of `loadRows`: drop empty lines, split on tab, drop rows without fields. */
  function LoadRows(lines: seq<string>): seq<seq<string>> {
    if lines == [] then []
    else
      var rest := LoadRows(lines[1..]);
      if |lines[0]| > 0 && |Fields(lines[0])| > 0 then [Fields(lines[0])] + rest else rest
  }

  /** A line survives exactly when it holds a character other than tab: the empty line and
      tab-only lines go, a line of spaces stays. */
  predicate KeptLine(line: string) {
    exists i :: 0 <= i < |line| && line[i] != TAB
  }

  lemma KeptLineIff(line: string)
    ensures (|line| > 0 && |Fields(line)| > 0) <==> KeptLine(line)
  {
    SplitEmptyIff(line, TAB);
  }

  /** The pipeline works line by line: it distributes over concatenation... */
  lemma {:induction false} LoadRowsAppend(a: seq<string>, b: seq<string>)
    ensures LoadRows(a + b) == LoadRows(a) + LoadRows(b)
  {
    if a == [] {
      assert a + b == b;
    } else {
      assert (a + b)[0] == a[0];
      assert (a + b)[1..] == a[1..] + b;
      LoadRowsAppend(a[1..], b);
    }
  }

  /** ... and keeps a single line, split, exactly when it has a non-tab character. */
  lemma LoadRowsSingle(line: string)
    ensures LoadRows([line]) == if KeptLine(line) then [Fields(line)] else []
  {
    KeptLineIff(line);
    assert [line][1..] == [];
  }

  /** Every surviving row has at least one field and no field contains a tab. */
  lemma {:induction false} LoadRowsShape(lines: seq<string>)
    ensures forall k :: 0 <= k < |LoadRows(lines)| ==> |LoadRows(lines)[k]| > 0
    ensures forall k, f :: 0 <= k < |LoadRows(lines)| && 0 <= f < |LoadRows(lines)[k]| ==> TAB !in LoadRows(lines)[k][f]
    ensures |LoadRows(lines)| <= |lines|
  {
    if lines != [] {
      LoadRowsShape(lines[1..]);
      SplitFields(lines[0], TAB);
    }
  }

  /** The header covers a data row: it has a name at every index the row has a field at,
      and none of those names is blank. */
  predicate HeaderCovers(headers: seq<string>, width: nat) {
    width <= |headers| && forall j :: 0 <= j < width ==> !IsBlank(headers[j])
  }

  /** The exception the loop of `zipToMap` meets first over a row of `width` fields, if
      any: index by index, a missing header name, then a blank one. */
  function ZipFailure(headers: seq<string>, width: nat): Option<TsvError> {
    if width == 0 then None
    else
      match ZipFailure(headers, width - 1)
      case Some(e) => Some(e)
      case None =>
        if width - 1 >= |headers| then Some(HeaderIndexOutOfBounds(width - 1))
        else if IsBlank(headers[width - 1]) then Some(BlankHeader)
        else None
  }

  /** The map `zipToMap` fills: each field put, in index order, under its lower-cased header. */
  function RowMap(headers: seq<string>, strs: seq<string>): Row
    requires |strs| <= |headers|
    decreases |strs|
  {
    if |strs| == 0 then map[]
    else
      var n := |strs| - 1;
      RowMap(headers, strs[..n])[AsciiLower(headers[n]) := WrapAsNull(Some(strs[n]))]
  }

  /** What `zipToMap(headers, strs)` returns or throws. */
  function ZippedRow(headers: seq<string>, strs: seq<string>): Result<Row, TsvError> {
    match ZipFailure(headers, |strs|)
    case Some(e) => Err(e)
    case None => Ok(RowMap(headers, strs))
  }

  /** No later field of the row has a header that lower-cases to the same key as field `j`. */
  predicate LastWithKey(headers: seq<string>, strs: seq<string>, j: nat)
    requires j < |strs| <= |headers|
  {
    forall k :: j < k < |strs| ==> AsciiLower(headers[k]) != AsciiLower(headers[j])
  }

  lemma {:induction false} ZipFailureNoneIff(headers: seq<string>, width: nat)
    ensures ZipFailure(headers, width).None? <==> HeaderCovers(headers, width)
  {
    if width > 0 {
      ZipFailureNoneIff(headers, width - 1);
    }
  }

  /** Zipping succeeds exactly when the header covers the row. */
  lemma ZippedRowOkIff(headers: seq<string>, strs: seq<string>)
    ensures ZippedRow(headers, strs).Ok? <==> HeaderCovers(headers, |strs|)
  {
    ZipFailureNoneIff(headers, |strs|);
  }

  lemma {:induction false} ZipFailureKind(headers: seq<string>, width: nat)
    requires ZipFailure(headers, width).Some?
    ensures (exists j :: 0 <= j < width && j < |headers| && IsBlank(headers[j])) ==>
            ZipFailure(headers, width).value == BlankHeader
    ensures (forall j :: 0 <= j < width && j < |headers| ==> !IsBlank(headers[j])) ==>
            width > |headers| && ZipFailure(headers, width).value == HeaderIndexOutOfBounds(|headers|)
  {
    var prefix := ZipFailure(headers, width - 1);
    ZipFailureNoneIff(headers, width - 1);
    if prefix.Some? {
      ZipFailureKind(headers, width - 1);
    }
  }

  /** The error is a blank header when some field in range has one; otherwise the row is
      longer than the header and the error names the first index past it. */
  lemma ZippedRowError(headers: seq<string>, strs: seq<string>)
    requires ZippedRow(headers, strs).Err?
    ensures (exists j :: 0 <= j < |strs| && j < |headers| && IsBlank(headers[j])) ==>
            ZippedRow(headers, strs).error == BlankHeader
    ensures (forall j :: 0 <= j < |strs| && j < |headers| ==> !IsBlank(headers[j])) ==>
            |strs| > |headers| && ZippedRow(headers, strs).error == HeaderIndexOutOfBounds(|headers|)
  {
    ZipFailureKind(headers, |strs|);
  }

  lemma {:induction false} RowMapKeys(headers: seq<string>, strs: seq<string>)
    requires |strs| <= |headers|
    ensures forall j :: 0 <= j < |strs| ==> AsciiLower(headers[j]) in RowMap(headers, strs)
    ensures forall key :: key in RowMap(headers, strs) ==> exists j :: 0 <= j < |strs| && AsciiLower(headers[j]) == key
  {
    if |strs| > 0 {
      var n := |strs| - 1;
      var row := RowMap(headers, strs[..n]);
      RowMapKeys(headers, strs[..n]);
      var full := RowMap(headers, strs);
      forall key | key in full ensures exists j :: 0 <= j < |strs| && AsciiLower(headers[j]) == key {
        if key in row {
          var j :| 0 <= j < n && AsciiLower(headers[j]) == key;
        } else {
          assert AsciiLower(headers[n]) == key;
        }
      }
    }
  }

  lemma {:induction false} RowMapValues(headers: seq<string>, strs: seq<string>)
    requires |strs| <= |headers|
    ensures forall j :: 0 <= j < |strs| && LastWithKey(headers, strs, j) ==>
      AsciiLower(headers[j]) in RowMap(headers, strs) &&
      RowMap(headers, strs)[AsciiLower(headers[j])] == WrapAsNull(Some(strs[j]))
  {
    if |strs| > 0 {
      var n := |strs| - 1;
      var prefix := strs[..n];
      RowMapValues(headers, prefix);
      var row := RowMap(headers, prefix);
      var last := AsciiLower(headers[n]);
      var full := row[last := WrapAsNull(Some(strs[n]))];
      assert RowMap(headers, strs) == full;
      forall j | 0 <= j < |strs| && LastWithKey(headers, strs, j)
        ensures AsciiLower(headers[j]) in full && full[AsciiLower(headers[j])] == WrapAsNull(Some(strs[j]))
      {
        if j < n {
          assert prefix[j] == strs[j];
          assert LastWithKey(headers, prefix, j);
          assert last != AsciiLower(headers[j]);
        }
      }
    }
  }

  lemma {:induction false} RowMapSize(headers: seq<string>, strs: seq<string>)
    requires |strs| <= |headers|
    ensures |RowMap(headers, strs)| <= |strs|
  {
    if |strs| > 0 {
      RowMapSize(headers, strs[..|strs| - 1]);
    }
  }

  /** Keys are the lower-cased header names of the row's indices, and each key holds the
      wrapped value of the last field that maps to it; there are at most as many keys as fields. */
  lemma ZippedRowContents(headers: seq<string>, strs: seq<string>)
    requires ZippedRow(headers, strs).Ok?
    ensures |strs| <= |headers|
    ensures forall j :: 0 <= j < |strs| ==> AsciiLower(headers[j]) in ZippedRow(headers, strs).value
    ensures forall key :: key in ZippedRow(headers, strs).value ==>
      exists j :: 0 <= j < |strs| && AsciiLower(headers[j]) == key
    ensures forall j :: 0 <= j < |strs| && LastWithKey(headers, strs, j) ==>
      ZippedRow(headers, strs).value[AsciiLower(headers[j])] == WrapAsNull(Some(strs[j]))
    ensures |ZippedRow(headers, strs).value| <= |strs|
  {
    ZippedRowOkIff(headers, strs);
    RowMapKeys(headers, strs);
    RowMapValues(headers, strs);
    RowMapSize(headers, strs);
  }

  /** `zipToMap`: an indexed loop that puts each field under its lower-cased header name. */
  method ZipToMap(headers: seq<string>, strs: seq<string>) returns (r: Result<Row, TsvError>)
    ensures r == ZippedRow(headers, strs)
  {
    var row: Row := map[];
    for n := 0 to |strs|
      invariant ZipFailure(headers, n).None?
      invariant n <= |headers| && row == RowMap(headers, strs[..n])
    {
      if n >= |headers| {
        ZipFailureFrom(headers, n + 1, |strs|);
        return Err(HeaderIndexOutOfBounds(n));
      }
      var key := ToLower(headers[n]);
      if key.Err? {
        ZipFailureFrom(headers, n + 1, |strs|);
        return Err(key.error);
      }
      RowMapStep(headers, strs, n);
      row := row[key.value := WrapAsNull(Some(strs[n]))];
    }
    assert strs[..|strs|] == strs;
    return Ok(row);
  }

  /** One more iteration of the loop puts field `n` into the map. */
  lemma RowMapStep(headers: seq<string>, strs: seq<string>, n: nat)
    requires n < |strs| && n < |headers|
    ensures RowMap(headers, strs[..n + 1]) == RowMap(headers, strs[..n])[AsciiLower(headers[n]) := WrapAsNull(Some(strs[n]))]
  {
    assert strs[..n + 1][..n] == strs[..n];
  }

  /** Once the loop has met an exception, scanning further fields does not change it. */
  lemma {:induction false} ZipFailureFrom(headers: seq<string>, n: nat, width: nat)
    requires n <= width && ZipFailure(headers, n).Some?
    ensures ZipFailure(headers, width) == ZipFailure(headers, n)
    decreases width - n
  {
    if n < width {
      ZipFailureFrom(headers, n, width - 1);
    }
  }

  /** All data rows zipped in order; the first row that fails decides the error. */
  function ZippedRows(headers: seq<string>, data: seq<seq<string>>): Result<seq<Row>, TsvError>
    decreases |data|
  {
    if |data| == 0 then Ok([])
    else
      match ZippedRows(headers, data[..|data| - 1])
      case Err(e) => Err(e)
      case Ok(rows) =>
        match ZippedRow(headers, data[|data| - 1])
        case Err(e) => Err(e)
        case Ok(row) => Ok(rows + [row])
  }

  /** What `loadDataSource` returns for a file with the given lines. */
  function Loaded(lines: seq<string>): Result<seq<Row>, TsvError> {
    var rows := LoadRows(lines);
    if |rows| == 0 then Err(NoRows) else ZippedRows(rows[0], rows[1..])
  }

  lemma {:induction false} ZippedRowsAllOk(headers: seq<string>, data: seq<seq<string>>)
    ensures ZippedRows(headers, data).Ok? <==> forall k :: 0 <= k < |data| ==> ZippedRow(headers, data[k]).Ok?
  {
    if |data| > 0 {
      var n := |data| - 1;
      var prefix := data[..n];
      ZippedRowsAllOk(headers, prefix);
      assert forall k :: 0 <= k < n ==> prefix[k] == data[k];
    }
  }

  lemma {:induction false} ZippedRowsValues(headers: seq<string>, data: seq<seq<string>>)
    requires ZippedRows(headers, data).Ok?
    ensures |ZippedRows(headers, data).value| == |data|
    ensures forall k :: 0 <= k < |data| ==> ZippedRow(headers, data[k]) == Ok(ZippedRows(headers, data).value[k])
  {
    if |data| > 0 {
      var n := |data| - 1;
      var prefix := data[..n];
      var done := ZippedRows(headers, prefix);
      var last := ZippedRow(headers, data[n]);
      assert done.Ok? && last.Ok?;
      ZippedRowsValues(headers, prefix);
      var all := done.value + [last.value];
      assert ZippedRows(headers, data) == Ok(all);
      forall k | 0 <= k < |data| ensures ZippedRow(headers, data[k]) == Ok(all[k]) {
        if k < n {
          assert prefix[k] == data[k];
        }
      }
    }
  }

  /** Zipping all data rows succeeds exactly when the header covers each of them; then there
      is one map per row, in order. */
  lemma ZippedRowsOk(headers: seq<string>, data: seq<seq<string>>)
    ensures ZippedRows(headers, data).Ok? <==> forall k :: 0 <= k < |data| ==> HeaderCovers(headers, |data[k]|)
    ensures ZippedRows(headers, data).Ok? ==>
      |ZippedRows(headers, data).value| == |data| &&
      forall k :: 0 <= k < |data| ==> ZippedRow(headers, data[k]) == Ok(ZippedRows(headers, data).value[k])
  {
    ZippedRowsAllOk(headers, data);
    forall k | 0 <= k < |data| ensures ZippedRow(headers, data[k]).Ok? <==> HeaderCovers(headers, |data[k]|) {
      ZippedRowOkIff(headers, data[k]);
    }
    if ZippedRows(headers, data).Ok? {
      ZippedRowsValues(headers, data);
    }
  }

  lemma {:induction false} ZippedRowsError(headers: seq<string>, data: seq<seq<string>>)
    requires ZippedRows(headers, data).Err?
    ensures exists k :: 0 <= k < |data| && ZippedRow(headers, data[k]) == Err(ZippedRows(headers, data).error) &&
                        forall j :: 0 <= j < k ==> ZippedRow(headers, data[j]).Ok?
  {
    var n := |data| - 1;
    var prefix := data[..n];
    if ZippedRows(headers, prefix).Err? {
      ZippedRowsError(headers, prefix);
      var k :| 0 <= k < n && ZippedRow(headers, prefix[k]) == Err(ZippedRows(headers, prefix).error) &&
        forall j :: 0 <= j < k ==> ZippedRow(headers, prefix[j]).Ok?;
      assert prefix[k] == data[k];
      assert forall j :: 0 <= j < k ==> prefix[j] == data[j];
    } else {
      ZippedRowsOk(headers, prefix);
      assert forall j :: 0 <= j < n ==> prefix[j] == data[j];
    }
  }

  /** Loading succeeds exactly when there is a row and the header covers every data row;
      then there is one map per data row, in file order. */
  lemma LoadedOk(lines: seq<string>)
    ensures var rows := LoadRows(lines);
      Loaded(lines).Ok? <==> |rows| > 0 && forall k :: 1 <= k < |rows| ==> HeaderCovers(rows[0], |rows[k]|)
    ensures var rows := LoadRows(lines);
      Loaded(lines).Ok? ==>
        |Loaded(lines).value| == |rows| - 1 &&
        forall k :: 1 <= k < |rows| ==> ZippedRow(rows[0], rows[k]) == Ok(Loaded(lines).value[k - 1])
  {
    var rows := LoadRows(lines);
    if |rows| > 0 {
      ZippedRowsOk(rows[0], rows[1..]);
      assert forall k :: 1 <= k < |rows| ==> rows[k] == rows[1..][k - 1];
    }
  }

  /** Row `k` is a data row that does not zip with the header row, and every data row
      before it does. */
  predicate FirstFailingRow(rows: seq<seq<string>>, k: nat, e: TsvError) {
    0 < k < |rows| && ZippedRow(rows[0], rows[k]) == Err(e) &&
    forall j :: 0 < j < k ==> ZippedRow(rows[0], rows[j]).Ok?
  }

  /** A failed load is the empty file, or the error of the first data row that does not zip. */
  lemma LoadedError(lines: seq<string>)
    requires Loaded(lines).Err?
    ensures |LoadRows(lines)| == 0 ==> Loaded(lines).error == NoRows
    ensures |LoadRows(lines)| > 0 ==> exists k :: FirstFailingRow(LoadRows(lines), k, Loaded(lines).error)
  {
    var rows := LoadRows(lines);
    if |rows| > 0 {
      var headers, data := rows[0], rows[1..];
      assert Loaded(lines) == ZippedRows(headers, data);
      var e := Loaded(lines).error;
      ZippedRowsError(headers, data);
      var k :| 0 <= k < |data| && ZippedRow(headers, data[k]) == Err(e) &&
        forall j :: 0 <= j < k ==> ZippedRow(headers, data[j]).Ok?;
      var w := k + 1;
      assert rows[w] == data[k];
      forall j | 1 <= j < w ensures ZippedRow(headers, rows[j]).Ok? {
        assert rows[j] == data[j - 1];
      }
      assert FirstFailingRow(rows, w, e);
    } else {
      assert Loaded(lines) == Err(NoRows);
    }
  }

  /** `loadDataSource` over the lines of the file: the header is the first row, and the loop
      skips that row only (Java compares the arrays by reference), zipping every other row. */
  method LoadDataSource(lines: seq<string>) returns (r: Result<seq<Row>, TsvError>)
    ensures r == Loaded(lines)
  {
    var rows := LoadRows(lines);
    if |rows| == 0 {
      return Err(NoRows);
    }
    var headers := rows[0];
    var lists: seq<Row> := [];
    for i := 0 to |rows|
      invariant i == 0 ==> lists == []
      invariant 0 < i ==> ZippedRows(headers, rows[1..i]) == Ok(lists)
    {
      if i == 0 {
        continue;
      }
      var row := ZipToMap(headers, rows[i]);
      ZippedRowsStep(headers, rows, i);
      if row.Err? {
        assert rows[1..][..i] == rows[1..i + 1];
        ZippedRowsFailureStays(headers, rows[1..], i);
        return Err(row.error);
      }
      lists := lists + [row.value];
    }
    assert rows[1..|rows|] == rows[1..];
    return Ok(lists);
  }

  /** One more iteration of the loop zips row `i`. */
  lemma ZippedRowsStep(headers: seq<string>, rows: seq<seq<string>>, i: nat)
    requires 0 < i < |rows|
    ensures ZippedRows(headers, rows[1..i + 1]) ==
      match ZippedRows(headers, rows[1..i])
      case Err(e) => Err(e)
      case Ok(done) =>
        match ZippedRow(headers, rows[i])
        case Err(e) => Err(e)
        case Ok(row) => Ok(done + [row])
  {
    assert rows[1..i + 1][..i - 1] == rows[1..i];
  }

  /** Once a row has failed, the rows after it do not change the outcome. */
  lemma {:induction false} ZippedRowsFailureStays(headers: seq<string>, data: seq<seq<string>>, k: nat)
    requires k <= |data| && ZippedRows(headers, data[..k]).Err?
    ensures ZippedRows(headers, data) == ZippedRows(headers, data[..k])
    decreases |data| - k
  {
    if k < |data| {
      var shorter := data[..|data| - 1];
      assert shorter[..k] == data[..k];
      ZippedRowsFailureStays(headers, shorter, k);
    } else {
      assert data[..k] == data;
    }
  }

  /** A line of three tab-separated fields, the last non-empty, splits into those three. */
  lemma FieldsOfTriple(a: string, b: string, c: string)
    requires TAB !in a && TAB !in b && TAB !in c && c != []
    ensures Fields(a + [TAB] + b + [TAB] + c) == [a, b, c]
  {
    var tail := b + [TAB] + c;
    var line := a + [TAB] + tail;
    assert line == a + [TAB] + b + [TAB] + c;
    assert line[|a|] == TAB;
    PiecesAfter(a, tail, TAB);
    PiecesAfter(b, c, TAB);
    PiecesWithout(c, TAB);
    assert Pieces(line, TAB) == [a, b, c];
  }

  /** A file of the size the repository's test reads: a header line of three column names
      and two data lines; each data line becomes one map from the lower-cased header names
      to its (possibly nulled) values. */
  lemma ThreeColumnFile(h1: string, h2: string, h3: string, x1: string, x2: string, x3: string,
                        y1: string, y2: string, y3: string)
    requires TAB !in h1 && TAB !in h2 && TAB !in h3
    requires TAB !in x1 && TAB !in x2 && TAB !in x3 && TAB !in y1 && TAB !in y2 && TAB !in y3
    requires h3 != [] && x3 != [] && y3 != []
    requires !IsBlank(h1) && !IsBlank(h2) && !IsBlank(h3)
    ensures Loaded([h1 + [TAB] + h2 + [TAB] + h3, x1 + [TAB] + x2 + [TAB] + x3, y1 + [TAB] + y2 + [TAB] + y3]) ==
      Ok([map[AsciiLower(h1) := WrapAsNull(Some(x1)), AsciiLower(h2) := WrapAsNull(Some(x2)), AsciiLower(h3) := WrapAsNull(Some(x3))],
          map[AsciiLower(h1) := WrapAsNull(Some(y1)), AsciiLower(h2) := WrapAsNull(Some(y2)), AsciiLower(h3) := WrapAsNull(Some(y3))]])
  {
    var headers := [h1, h2, h3];
    FieldsOfTriple(h1, h2, h3);
    FieldsOfTriple(x1, x2, x3);
    FieldsOfTriple(y1, y2, y3);
    ThreeColumnRows(h1 + [TAB] + h2 + [TAB] + h3, x1 + [TAB] + x2 + [TAB] + x3, y1 + [TAB] + y2 + [TAB] + y3);
    ThreeColumnRow(headers, x1, x2, x3);
    ThreeColumnRow(headers, y1, y2, y3);
    var first := map[AsciiLower(h1) := WrapAsNull(Some(x1)), AsciiLower(h2) := WrapAsNull(Some(x2)), AsciiLower(h3) := WrapAsNull(Some(x3))];
    var second := map[AsciiLower(h1) := WrapAsNull(Some(y1)), AsciiLower(h2) := WrapAsNull(Some(y2)), AsciiLower(h3) := WrapAsNull(Some(y3))];
    ZippedRowsPair(headers, [x1, x2, x3], [y1, y2, y3], first, second);
    var rows := [headers, [x1, x2, x3], [y1, y2, y3]];
    assert rows[1..] == [[x1, x2, x3], [y1, y2, y3]];
  }

  /** Two data rows that both zip give their two maps in order. */
  lemma ZippedRowsPair(headers: seq<string>, x: seq<string>, y: seq<string>, first: Row, second: Row)
    requires ZippedRow(headers, x) == Ok(first) && ZippedRow(headers, y) == Ok(second)
    ensures ZippedRows(headers, [x, y]) == Ok([first, second])
  {
    var data := [x, y];
    assert data[..1] == [x];
    assert [x][..0] == [];
    assert ZippedRows(headers, [x][..0]) == Ok([]);
    assert [x][0] == x;
    var none: seq<Row> := [];
    assert none + [first] == [first];
    assert ZippedRows(headers, [x]) == Ok([first]);
    assert data[1] == y;
    assert [first] + [second] == [first, second];
  }

  /** Three lines that each have a field all become rows. */
  lemma ThreeColumnRows(header: string, x: string, y: string)
    requires |header| > 0 && |Fields(header)| > 0 && |x| > 0 && |Fields(x)| > 0 && |y| > 0 && |Fields(y)| > 0
    ensures LoadRows([header, x, y]) == [Fields(header), Fields(x), Fields(y)]
  {
    LoadRowsCons(y, []);
    LoadRowsCons(x, [y]);
    LoadRowsCons(header, [x, y]);
  }

  /** `loadRows` looks at the first line, then at the rest. */
  lemma LoadRowsCons(line: string, rest: seq<string>)
    ensures LoadRows([line] + rest) == (if |line| > 0 && |Fields(line)| > 0 then [Fields(line)] else []) + LoadRows(rest)
  {
    assert ([line] + rest)[1..] == rest;
  }

  /** A data row of three fields under a header of three non-blank names. */
  lemma ThreeColumnRow(headers: seq<string>, a: string, b: string, c: string)
    requires |headers| == 3 && !IsBlank(headers[0]) && !IsBlank(headers[1]) && !IsBlank(headers[2])
    ensures ZippedRow(headers, [a, b, c]) ==
      Ok(map[AsciiLower(headers[0]) := WrapAsNull(Some(a)), AsciiLower(headers[1]) := WrapAsNull(Some(b)),
             AsciiLower(headers[2]) := WrapAsNull(Some(c))])
  {
    ZipFailureNoneIff(headers, 3);
    assert [a, b, c][..2] == [a, b];
    assert [a, b][..1] == [a];
    assert [a][..0] == [];
    assert RowMap(headers, [a][..0]) == map[];
    var one := RowMap(headers, [a]);
    assert one == map[][AsciiLower(headers[0]) := WrapAsNull(Some(a))];
    var two := RowMap(headers, [a, b]);
    assert two == one[AsciiLower(headers[1]) := WrapAsNull(Some(b))];
    assert RowMap(headers, [a, b, c]) == two[AsciiLower(headers[2]) := WrapAsNull(Some(c))];
  }
}

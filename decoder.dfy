/** The decoding half of `fetchSheetData` in services/sheetService.ts: the
    response check, the JSON shape classification with its array-of-arrays
    header row, and the CSV fallback. `JSON.parse` and `parseCSV` are the
    parameters `parsers.json` and `parsers.csv`. */
module Decoder {
  import opened Wrappers
  import opened JsText
  import opened JsValue

  /** What the service sees of the HTTP response: its content type (absent
      when the header is missing), whether the status is 2xx, and its text. */
  datatype Response = Response(contentType: Option<string>, ok: bool, body: string)

  /** Why a fetch fails: the script answered with a login page, the status
      was not 2xx, or reading a column of a `null` array-mode row threw. */
  datatype IngestError = AuthRequired | ScriptUnreachable | RowTypeError

  /** `JSON.parse` (`None` when it throws) and `parseCSV`. */
  datatype Parsers = Parsers(json: string -> Option<Value>, csv: string -> seq<seq<string>>)

  /** The rows to normalise, whether they are arrays read by column index,
      and the column names of array mode. */
  datatype Payload = Payload(rows: seq<Value>, arrayMode: bool, headers: seq<string>)

  /** `contentType && contentType.includes("text/html")`. */
  predicate IsHtml(resp: Response) {
    resp.contentType.Some? && Includes(resp.contentType.value, "text/html")
  }

  /** The response checks, the login-page check first: the body when the
      response can be read, the error otherwise. */
  function Admit(resp: Response): (r: Result<string, IngestError>)
    ensures r == Err(AuthRequired) <==> IsHtml(resp)
    ensures r == Err(ScriptUnreachable) <==> !IsHtml(resp) && !resp.ok
    ensures r.Ok? ==> r.value == resp.body
  {
    if IsHtml(resp) then Err(AuthRequired)
    else if !resp.ok then Err(ScriptUnreachable)
    else Ok(resp.body)
  }

  /** The rows a parsed JSON document yields: the document itself when it is
      an array, else its `data` array, else its `records` array, else the
      object as the one row; no rows for a string, number or boolean.
      `None` when reading `json.data` throws, which sends the text to the
      CSV parser. */
  function JsonRows(json: Value): (r: Option<seq<Value>>)
    ensures r.None? <==> json.Null? || json.Undefined?
    ensures json.Arr? ==> r == Some(json.items)
    ensures json.Bool? || json.Num? || json.Str? ==> r == Some([])
  {
    match json
    case Arr(items) => Some(items)
    case Null => None
    case Undefined => None
    case Obj(fields) =>
      var data := FieldValue(fields, "data");
      var records := FieldValue(fields, "records");
      if data.Arr? then Some(data.items)
      else if records.Arr? then Some(records.items)
      else Some([json])
    case _ => Some([])
  }

  /** The array-of-arrays check: when the first row is an array it is the
      header row, stringified cell by cell, and the rest are the data rows. */
  function SplitHeader(rows: seq<Value>): (p: Payload)
    ensures p.arrayMode <==> |rows| > 0 && rows[0].Arr?
    ensures p.arrayMode ==> p.rows == rows[1..] && |p.headers| == |rows[0].items|
    ensures p.arrayMode ==> forall i :: 0 <= i < |p.headers| ==> p.headers[i] == ToStr(rows[0].items[i])
    ensures !p.arrayMode ==> p.rows == rows && p.headers == []
  {
    if |rows| > 0 && rows[0].Arr? then
      var head := rows[0].items;
      Payload(rows[1..], true, seq(|head|, i requires 0 <= i < |head| => ToStr(head[i])))
    else Payload(rows, false, [])
  }

  /** The CSV reading: array mode with the first row as header when there
      are at least two rows, nothing to normalise otherwise. */
  function CsvPayload(grid: seq<seq<string>>): (p: Payload)
    ensures p.arrayMode <==> |grid| > 1
    ensures p.arrayMode ==> |p.rows| == |grid| - 1
    ensures !p.arrayMode ==> p.rows == [] && p.headers == []
  {
    if |grid| > 1 then Payload(Grid(grid[1..]), true, grid[0])
    else Payload([], false, [])
  }

  /** CSV rows as the array values the normaliser reads by index. */
  function Grid(grid: seq<seq<string>>): (rows: seq<Value>)
    ensures |rows| == |grid|
    ensures forall i :: 0 <= i < |grid| ==> rows[i] == CellsValue(grid[i])
  {
    seq(|grid|, i requires 0 <= i < |grid| => CellsValue(grid[i]))
  }

  /** The payload of a response body: JSON when it parses and its shape can
      be read, CSV otherwise. */
  function Decode(text: string, parsers: Parsers): (p: Payload)
    ensures !p.arrayMode ==> p.headers == []
  {
    var parsed := parsers.json(text);
    var rows := if parsed.Some? then JsonRows(parsed.value) else None;
    if rows.Some? then SplitHeader(rows.value) else CsvPayload(parsers.csv(text))
  }

  // ---- what the decoding guarantees --------------------------------------------

  /** A login page is reported as such even when the status is an error. */
  lemma AuthCheckedFirst(resp: Response)
    requires IsHtml(resp) && !resp.ok
    ensures Admit(resp) == Err(AuthRequired)
  {
  }

  /** Any content type that mentions `text/html` is a login page. */
  lemma HtmlAnywhereInContentType(before: string, after: string, ok: bool, body: string)
    ensures IsHtml(Response(Some(before + "text/html" + after), ok, body))
  {
    var ct := before + "text/html" + after;
    assert ct[|before|..|before| + 9] == "text/html";
    assert OccursAt(ct, "text/html", |before|);
  }

  /** The `data` array wins over the `records` array. */
  lemma DataBeforeRecords(fields: seq<Field>)
    requires FieldValue(fields, "data").Arr?
    ensures JsonRows(Obj(fields)) == Some(FieldValue(fields, "data").items)
  {
  }

  /** Without a `data` array, a `records` array is the rows. */
  lemma RecordsWhenDataNotArray(fields: seq<Field>)
    requires !FieldValue(fields, "data").Arr? && FieldValue(fields, "records").Arr?
    ensures JsonRows(Obj(fields)) == Some(FieldValue(fields, "records").items)
  {
  }

  /** An object with neither a `data` nor a `records` array is one row. */
  lemma LoneObjectIsOneRow(fields: seq<Field>)
    requires !FieldValue(fields, "data").Arr? && !FieldValue(fields, "records").Arr?
    ensures JsonRows(Obj(fields)) == Some([Obj(fields)])
  {
  }

  /** A JSON `null` is not rows: the text goes to the CSV parser. */
  lemma JsonNullFallsBackToCsv(text: string, parsers: Parsers)
    requires parsers.json(text) == Some(Null)
    ensures Decode(text, parsers) == CsvPayload(parsers.csv(text))
  {
  }

  /** A header row of strings comes back as the column names and the rows
      after it as the data, unchanged. */
  lemma HeaderRowRoundTrip(header: seq<string>, rest: seq<Value>)
    ensures SplitHeader([CellsValue(header)] + rest) == Payload(rest, true, header)
  {
    var rows := [CellsValue(header)] + rest;
    assert rows[1..] == rest;
    var head := rows[0].items;
    assert seq(|head|, i requires 0 <= i < |head| => ToStr(head[i])) == header;
  }

  /** Without a leading array the rows are objects read by key. */
  lemma ObjectModeKeepsRows(rows: seq<Value>)
    requires rows == [] || !rows[0].Arr?
    ensures SplitHeader(rows) == Payload(rows, false, [])
  {
  }

  /** A sheet sent as a JSON array of string rows and the same sheet sent as
      CSV text decode to the same payload when it has a data row. */
  lemma JsonGridMatchesCsv(grid: seq<seq<string>>)
    requires |grid| > 1
    ensures SplitHeader(Grid(grid)) == CsvPayload(grid)
  {
    assert Grid(grid) == [CellsValue(grid[0])] + Grid(grid[1..]);
    HeaderRowRoundTrip(grid[0], Grid(grid[1..]));
  }
}

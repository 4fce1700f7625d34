/** The spreadsheet writer: configuration loading with its fallback values,
    the configuration guard, the "sheet is effectively empty" test and the
    rows handed to the append call. The remote service is an oracle. */
module GoogleSheetsWriter {
  import opened Wrappers
  import opened JavaStrings
  import opened FifaFinalResult

  /** A spreadsheet cell value as handed to the client library. */
  datatype Cell = Text(text: string) | Number(value: int)

  type Row = seq<Cell>

  /** Spreadsheet id and sheet name, as `loadProperties` leaves them. */
  datatype Config = Config(spreadsheetId: Option<string>, sheetName: string)

  /** What reading the bundled properties file can come to. */
  datatype PropertiesFile =
    | FileNotFound                        // the resource stream is null
    | ReadFailed                          // an IOException while reading
    | ParseFailed                         // any other exception while parsing
    | Parsed(spreadsheetId: Option<string>, sheetName: Option<string>)  // keys present or absent

  const DefaultSheetName: string := "Sheet1"

  /** `loadProperties`. */
  function LoadProperties(file: PropertiesFile): (c: Config)
    ensures c.spreadsheetId.Some?
    ensures file.Parsed? && file.spreadsheetId.Some? ==> c.spreadsheetId == file.spreadsheetId
    ensures file.Parsed? && file.sheetName.Some? ==> c.sheetName == file.sheetName.value
    ensures !(file.Parsed? && file.sheetName.Some?) ==> c.sheetName == DefaultSheetName
  {
    match file
    case FileNotFound => Config(Some("FALLBACK_SPREADSHEET_ID_NOT_CONFIGURED"), DefaultSheetName)
    case ReadFailed => Config(Some("ERROR_LOADING_SPREADSHEET_ID"), DefaultSheetName)
    case ParseFailed => Config(Some("ERROR_PARSING_SPREADSHEET_ID"), DefaultSheetName)
    case Parsed(id, name) =>
      Config(Some(id.ValueOr("MISSING_SPREADSHEET_ID")), name.ValueOr(DefaultSheetName))
  }

  /** The guard of `appendResults`: an id is usable when it is present and
      names none of the fallback markers. */
  predicate IsConfigured(id: Option<string>): (ok: bool)
    ensures ok ==> id.Some?
    ensures id.Some? ==>
      (ok <==> forall k :: 0 <= k <= |id.value| ==>
         && !StartsWith(id.value[k..], "FALLBACK")
         && !StartsWith(id.value[k..], "MISSING")
         && !StartsWith(id.value[k..], "ERROR"))
  {
    id.Some? &&
    !Contains(id.value, "FALLBACK") && !Contains(id.value, "MISSING") && !Contains(id.value, "ERROR")
  }

  /** A marker anywhere in the id, not just at its start, makes the guard
      refuse it. */
  lemma MarkerAnywhereRejected(pre: string, marker: string, post: string)
    requires marker == "FALLBACK" || marker == "MISSING" || marker == "ERROR"
    ensures !IsConfigured(Some(pre + marker + post))
  {
    ContainsInfix(pre, marker, post);
  }

  /** Every fallback id `loadProperties` can assign is refused by the guard. */
  lemma FallbackIdsRejected(file: PropertiesFile)
    requires !(file.Parsed? && file.spreadsheetId.Some?)
    ensures !IsConfigured(LoadProperties(file).spreadsheetId)
  {
    match file
    case FileNotFound =>
      assert StartsWith("FALLBACK_SPREADSHEET_ID_NOT_CONFIGURED", "FALLBACK");
    case ReadFailed =>
      assert StartsWith("ERROR_LOADING_SPREADSHEET_ID", "ERROR");
    case ParseFailed =>
      assert StartsWith("ERROR_PARSING_SPREADSHEET_ID", "ERROR");
    case Parsed(_, _) =>
      assert StartsWith("MISSING_SPREADSHEET_ID", "MISSING");
  }

  /** The `values` field of the first-row read: `None` for a null list,
      each row itself nullable. */
  type Values = Option<seq<Option<Row>>>

  /** The sheet counts as empty when no values came back, or the first row
      is present and holds no cell. A null first row counts as data. */
  predicate IsSheetEffectivelyEmpty(values: Values): (empty: bool)
    ensures values.None? ==> empty
    ensures values == Some([]) ==> empty
    ensures values.Some? && values.value != [] ==> (empty <==> values.value[0] == Some([]))
  {
    values.None? || values.value == [] ||
    (values.value[0].Some? && values.value[0].value == [])
  }

  const HeaderRow: Row := [Text("Year"), Text("Winner"), Text("Score"), Text("Runner-Up")]

  /** One result in the sheet's column order: year, winner, score,
      runner-up. */
  function DataRow(r: FinalResult): (row: Row)
    ensures |row| == |HeaderRow|
    ensures row[0].Number? && row[0].value == r.year
  {
    [Number(r.year), Text(r.winner), Text(r.score), Text(r.runnerUp)]
  }

  /** One data row per result, in input order. */
  function DataRows(results: seq<FinalResult>): (rows: seq<Row>)
    ensures |rows| == |results|
    ensures forall k :: 0 <= k < |results| ==> rows[k] == DataRow(results[k])
  {
    if results == [] then [] else [DataRow(results[0])] + DataRows(results[1..])
  }

  /** The rows sent: the header first when the sheet is empty. */
  function RowsToAppend(sheetEmpty: bool, results: seq<FinalResult>): (rows: seq<Row>)
    ensures |rows| == |results| + (if sheetEmpty then 1 else 0)
    ensures sheetEmpty ==> rows[0] == HeaderRow
    ensures var offset := if sheetEmpty then 1 else 0;
      forall k :: 0 <= k < |results| ==> rows[offset + k] == DataRow(results[k])
  {
    (if sheetEmpty then [HeaderRow] else []) + DataRows(results)
  }

  /** How the remote service behaves for one call of `appendResults`. */
  datatype FirstRowReply =
    | FirstRowFailed            // the read threw
    | FirstRow(values: Values)
  datatype Service =
    | ServiceUnavailable        // building the client threw (I/O or security failure)
    | Service(firstRow: FirstRowReply, appendSucceeds: bool)

  datatype ReadRequest = ReadRequest(spreadsheetId: string, range: string)
  datatype AppendRequest = AppendRequest(spreadsheetId: string, range: string, rows: seq<Row>)

  /** What `appendResults` returned and which requests it issued. */
  datatype WriteReport = WriteReport(success: bool, read: Option<ReadRequest>, append: Option<AppendRequest>)

  /** `appendResults`; `None` for `results` is a null list. */
  function AppendResults(config: Config, results: Option<seq<FinalResult>>, service: Service): (w: WriteReport)
    ensures !IsConfigured(config.spreadsheetId) ==> w == WriteReport(false, None, None)
    ensures IsConfigured(config.spreadsheetId) && (results.None? || results.value == []) ==>
      w == WriteReport(true, None, None)
    ensures w.append.Some? ==> w.read.Some?
    ensures w.read.Some? ==> w.read.value == ReadRequest(config.spreadsheetId.value, config.sheetName + "!A1")
    ensures w.append.Some? ==> w.append.value.spreadsheetId == config.spreadsheetId.value
    ensures w.append.Some? ==> w.append.value.range == config.sheetName + "!A:D"
    ensures w.success <==>
      (IsConfigured(config.spreadsheetId) &&
       (results.None? || results.value == [] ||
        (w.append.Some? && service.Service? && service.appendSucceeds)))
  {
    if !IsConfigured(config.spreadsheetId) then WriteReport(false, None, None)
    else if results.None? || results.value == [] then WriteReport(true, None, None)
    else
      var id := config.spreadsheetId.value;
      match service
      case ServiceUnavailable => WriteReport(false, None, None)
      case Service(firstRow, appendSucceeds) =>
        var read := ReadRequest(id, config.sheetName + "!A1");
        match firstRow
        case FirstRowFailed => WriteReport(false, Some(read), None)
        case FirstRow(values) =>
          var rows := RowsToAppend(IsSheetEffectivelyEmpty(values), results.value);
          WriteReport(appendSucceeds, Some(read), Some(AppendRequest(id, config.sheetName + "!A:D", rows)))
  }

  /** With a configured id and results to write, the append is issued
      exactly when the client was built and the first-row read returned;
      it carries the header exactly when the sheet is effectively empty,
      then one row per result in order. */
  lemma AppendedRows(config: Config, results: seq<FinalResult>, service: Service)
    requires IsConfigured(config.spreadsheetId) && results != []
    ensures var w := AppendResults(config, Some(results), service);
      (w.append.Some? <==> service.Service? && service.firstRow.FirstRow?) &&
      (w.append.Some? ==>
        var empty := IsSheetEffectivelyEmpty(service.firstRow.values);
        var rows := w.append.value.rows;
        var offset := if empty then 1 else 0;
        |rows| == |results| + offset &&
        (empty ==> rows[0] == HeaderRow) &&
        (forall k :: 0 <= k < |results| ==>
          rows[offset + k] == [Number(results[k].year), Text(results[k].winner),
                               Text(results[k].score), Text(results[k].runnerUp)]))
  {
  }

  /** A sheet already holding data gets no second header: when the first
      row is present and non-empty, only data rows are sent. */
  lemma NoHeaderOverData(config: Config, results: seq<FinalResult>, firstRow: Row, more: seq<Option<Row>>)
    requires IsConfigured(config.spreadsheetId) && results != [] && firstRow != []
    ensures var w := AppendResults(config, Some(results), Service(FirstRow(Some([Some(firstRow)] + more)), true));
      w.success && w.append.Some? && w.append.value.rows == DataRows(results)
  {
  }

  /** One confirmed result and an effectively empty sheet: exactly two rows
      are sent, header then the result, and the call succeeds exactly when
      the append does. */
  lemma SingleResultIntoEmptySheet(config: Config, r: FinalResult, values: Values, appendSucceeds: bool)
    requires IsConfigured(config.spreadsheetId)
    requires IsSheetEffectivelyEmpty(values)
    ensures var w := AppendResults(config, Some([r]), Service(FirstRow(values), appendSucceeds));
      w.append.Some? && w.append.value.rows == [HeaderRow, DataRow(r)] && w.success == appendSucceeds
  {
    assert DataRows([r]) == [DataRow(r)];
  }
}

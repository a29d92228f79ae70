/**
 * The Flask route process: the request is checked for its two required
 * parameters before anything else, the uploaded sheet is loaded, and the
 * row batch runs with its images going to the session's output directory.
 * Finding and reading the uploaded file is file-system and pandas work; its
 * outcome is the parameter load.
 */
module Route {
  import opened Wrappers
  import opened StrOps
  import opened CellParse
  import opened Plot
  import opened Batch

  /** The JSON body of a process request; chart_type has already defaulted to "line" when absent. */
  datatype Request = Request(sessionId: Option<string>, dataColumn: Option<string>, nameColumn: Option<string>, chartType: string)

  /** What looking up and reading the session's uploaded file gave. */
  datatype Load =
    | Expired                      // the session's upload directory does not exist
    | NoUpload                     // the directory holds no file
    | Unreadable(message: string)  // pandas failed to read the file
    | Loaded(table: Table)

  /** The error responses of the route, in the order it checks for them. */
  datatype ProcessError = MissingParameters | SessionExpired | UploadNotFound | ReadFailed(message: string)

  /** The success response: the number of entries, the entries and the preview figure. */
  datatype Response = Response(total: nat, results: seq<RowResult>, preview: Option<Figure>)

  /** A parameter that is absent or empty counts as missing. */
  predicate Missing(v: Option<string>) {
    v.None? || v.value == ""
  }

  /** The batch a complete request asks for; images go to the session's directory under the output root. */
  function BatchParams(req: Request, outputRoot: string): Params
    requires !Missing(req.sessionId) && !Missing(req.dataColumn)
  {
    Params(req.dataColumn.value, req.nameColumn, req.chartType, PathJoin(outputRoot, req.sessionId.value))
  }

  /**
   * process: a missing session id or data column is refused whatever the
   * upload; otherwise the load errors come back in order, and a loaded
   * sheet yields the batch's entries, their count and the first figure.
   */
  method Process(req: Request, load: Load, outputRoot: string, toNumber: Converter) returns (r: Result<Response, ProcessError>)
    requires load.Loaded? ==> WellFormed(load.table)
    ensures Missing(req.sessionId) || Missing(req.dataColumn) ==> r == Failure(MissingParameters)
    ensures !Missing(req.sessionId) && !Missing(req.dataColumn) ==>
      match load
      case Expired => r == Failure(SessionExpired)
      case NoUpload => r == Failure(UploadNotFound)
      case Unreadable(m) => r == Failure(ReadFailed(m))
      case Loaded(t) =>
        r.Success? && r.value.total == |r.value.results| &&
        r.value.results == Results(t, BatchParams(req, outputRoot), toNumber, |t.rows|) &&
        r.value.preview == FirstFigure(t, BatchParams(req, outputRoot), toNumber, |t.rows|)
  {
    if Missing(req.sessionId) || Missing(req.dataColumn) {
      return Failure(MissingParameters);
    }
    match load
    case Expired =>
      return Failure(SessionExpired);
    case NoUpload =>
      return Failure(UploadNotFound);
    case Unreadable(m) =>
      return Failure(ReadFailed(m));
    case Loaded(t) =>
      var p := BatchParams(req, outputRoot);
      var results, preview := ProcessRows(t, p, toNumber);
      return Success(Response(|results|, results, preview));
  }
}

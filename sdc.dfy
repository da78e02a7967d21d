/**
  The request the Input Reader hands to the caller. It is read-only to the release logic,
  so it is a value.
 */
module InputReader {
  import opened Wrappers

  /** The Article payload. A nil `IsReleaseled` means "unspecified". */
  datatype Article = Article(isReleaseled: Option<bool>)

  /** The parsed request (the reader's SDC). */
  datatype SDC = SDC(apiType: string, runtimeSessionID: string, article: Article)
}

/**
  The output side: the Header entity, the Message that wraps it, and the output SDC.
  The release logic writes the output SDC's two status fields in place.
 */
module OutputFormatter {
  import opened Wrappers

  /**
    A Header row. `columns` stands for the columns HeaderRead fills in, which the release
    logic copies through untouched. `isReleaseled` is the flag the release step overwrites.
   */
  datatype Header = Header(columns: map<string, string>, isReleaseled: Option<bool>)

  /** The aggregate response. Its `Header` is nil when no Header was released. */
  datatype Message = Message(header: Option<Header>)

  /** The pair of status fields of the output SDC, read as one value. */
  datatype UpdateStatus = UpdateStatus(sqlUpdateResult: Option<bool>, sqlUpdateError: string)

  /** The output SDC. Only its two status fields are modelled. */
  class SDC {
    var sqlUpdateResult: Option<bool>
    var sqlUpdateError: string

    constructor (result: Option<bool>, error: string)
      ensures sqlUpdateResult == result && sqlUpdateError == error
    {
      sqlUpdateResult := result;
      sqlUpdateError := error;
    }

    /** The status fields as one value. */
    function Status(): UpdateStatus
      reads this
    {
      UpdateStatus(sqlUpdateResult, sqlUpdateError)
    }
  }
}

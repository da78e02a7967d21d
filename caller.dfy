/**
  The release caller: it routes a request by API type, walks the accepter tags, and for a
  "Header" tag reads the Header, stamps the requested release flag on it, sends it to the SQL
  worker over the broker, and classifies the reply.

  The database read and the broker call are not part of this model. Each release step gets
  their outcomes as an `Effects` value: what the read found, and what the broker returned.
 */
module Caller {
  import opened Wrappers
  import InputReader
  import opened OutputFormatter

  // ---------------------------------------------------------------------------
  // Broker data
  // ---------------------------------------------------------------------------

  /** A value in a decoded broker reply: a string, or anything else (number, bool, object...). */
  datatype Value = Str(s: string) | Other

  /** The decoded data of a broker reply. */
  type Reply = map<string, Value>

  /** What a session-scoped broker request came back with. */
  datatype TransportOutcome = TransportError | Delivered(reply: Reply)

  /** The request envelope sent to the SQL worker: its three top-level keys. */
  datatype Envelope = Envelope(message: Header, functionName: string, runtimeSessionID: string)

  /** The outcomes of the two external calls that one release step makes. */
  datatype Effects = Effects(read: Option<Header>, transport: TransportOutcome)

  const ResultKey := "result"
  const SuccessResult := "success"
  const HeaderTag := "Header"
  const ArticleHeaderFunction := "ArticleHeader"
  const ReleasesType := "releases"
  const HeaderReleaseError := "Header Data cannot release"

  /** The status the output SDC holds after a rejected Header release. */
  const RejectedStatus := UpdateStatus(Some(false), HeaderReleaseError)

  // ---------------------------------------------------------------------------
  // Pure pieces
  // ---------------------------------------------------------------------------

  /** checkResult: success iff the reply's "result" entry is the string "success". */
  function CheckResult(reply: Reply): (ok: bool)
    ensures ok <==> ResultKey in reply && reply[ResultKey] == Str(SuccessResult)
    ensures ResultKey !in reply ==> !ok
    ensures ResultKey in reply && !reply[ResultKey].Str? ==> !ok
    ensures ResultKey in reply && reply[ResultKey].Str? && reply[ResultKey].s != SuccessResult ==> !ok
  {
    if ResultKey !in reply then false
    else
      match reply[ResultKey]
      case Other => false
      case Str(result) => result == SuccessResult
  }

  /** getBoolPtr: a non-nil pointer to a copy of `b`. */
  function GetBoolPtr(b: bool): Option<bool>
  {
    Some(b)
  }

  /** The Header with its release flag replaced by the one the request carries. */
  function Stamped(read: Header, input: InputReader.SDC): Header
  {
    read.(isReleaseled := input.article.isReleaseled)
  }

  /** What one release step yields: the Header it returns (or nil), the envelope it sent (or
      none, when it made no broker call), and whether it wrote the failure status. */
  datatype StepResult = StepResult(header: Option<Header>, sent: Option<Envelope>, rejected: bool)

  /** The specification of headerRelease, as a function of the two external outcomes. */
  function HeaderStep(input: InputReader.SDC, fx: Effects): (o: StepResult)
    // the broker is called exactly when the read found a Header
    ensures o.sent.Some? <==> fx.read.Some?
    // the envelope carries the stamped Header, the fixed function name and the session id
    ensures o.sent.Some? ==>
      && o.sent.value.functionName == ArticleHeaderFunction
      && o.sent.value.runtimeSessionID == input.runtimeSessionID
      && o.sent.value.message.columns == fx.read.value.columns
      && o.sent.value.message.isReleaseled == input.article.isReleaseled
    // a Header comes back exactly when the reply classifies as success, and it is the one sent
    ensures o.header.Some? <==> fx.read.Some? && fx.transport.Delivered? && CheckResult(fx.transport.reply)
    ensures o.header.Some? ==> o.sent.Some? && o.header.value == o.sent.value.message
    // the failure status is written exactly when a reply arrived and did not classify as success
    ensures o.rejected <==> fx.read.Some? && fx.transport.Delivered? && !CheckResult(fx.transport.reply)
  {
    match fx.read
    case None => StepResult(None, None, false)
    case Some(read) =>
      var header := Stamped(read, input);
      var request := Envelope(header, ArticleHeaderFunction, input.runtimeSessionID);
      match fx.transport
      case TransportError => StepResult(None, Some(request), false)
      case Delivered(reply) =>
        if CheckResult(reply) then StepResult(Some(header), Some(request), false)
        else StepResult(None, Some(request), true)
  }

  /** The output status after a step: the rejected status if the step rejected, else unchanged. */
  function StatusAfter(before: UpdateStatus, o: StepResult): UpdateStatus
  {
    if o.rejected then RejectedStatus else before
  }

  /** The state of the dispatch loop after a prefix of the accepter list. */
  datatype RunState = RunState(header: Option<Header>, status: UpdateStatus, sent: seq<Envelope>, steps: nat)

  function SentList(s: Option<Envelope>): seq<Envelope>
  {
    if s.Some? then [s.value] else []
  }

  /**
    The specification of releaseSqlProcess over `accepter`, starting from output status `init`.
    The k-th Header step (counting from 0) sees the outcomes `env(k)`.
   */
  function Run(input: InputReader.SDC, accepter: seq<string>, env: nat -> Effects, init: UpdateStatus): RunState
    decreases |accepter|
  {
    if accepter == [] then RunState(None, init, [], 0)
    else
      var prev := Run(input, accepter[..|accepter| - 1], env, init);
      if accepter[|accepter| - 1] == HeaderTag then
        var o := HeaderStep(input, env(prev.steps));
        RunState(o.header, StatusAfter(prev.status, o), prev.sent + SentList(o.sent), prev.steps + 1)
      else prev
  }

  // ---------------------------------------------------------------------------
  // The handlers
  // ---------------------------------------------------------------------------

  /**
    headerRelease. The read and the broker reply are `fx`; `sent` is the envelope handed to
    the broker, if any. On a rejected reply the output status fields are set to failure.
   */
  method HeaderRelease(input: InputReader.SDC, output: SDC, fx: Effects)
    returns (header: Option<Header>, sent: Option<Envelope>)
    modifies output
    ensures var o := HeaderStep(input, fx);
      && header == o.header
      && sent == o.sent
      && output.Status() == StatusAfter(old(output.Status()), o)
    ensures fx.read.None? ==> header.None? && sent.None? && unchanged(output)
    ensures fx.transport.TransportError? ==> header.None? && unchanged(output)
    ensures output.sqlUpdateResult != old(output.sqlUpdateResult) ==> output.sqlUpdateResult == Some(false)
  {
    var sessionID := input.runtimeSessionID;
    var read := fx.read;
    if read.None? {
      return None, None;
    }
    var h := Stamped(read.value, input);
    var request := Envelope(h, ArticleHeaderFunction, sessionID);
    sent := Some(request);
    match fx.transport
    case TransportError =>
      return None, sent;
    case Delivered(reply) =>
      if !CheckResult(reply) {
        output.sqlUpdateResult := GetBoolPtr(false);
        output.sqlUpdateError := HeaderReleaseError;
        return None, sent;
      }
      return Some(h), sent;
  }

  /**
    releaseSqlProcess. Walks `accepter` in order; each "Header" tag runs one release step and
    the Message keeps the last step's Header. `sent` lists every envelope sent, in order.
   */
  method ReleaseSqlProcess(input: InputReader.SDC, output: SDC, accepter: seq<string>, env: nat -> Effects)
    returns (msg: Message, sent: seq<Envelope>)
    modifies output
    ensures var r := Run(input, accepter, env, old(output.Status()));
      && msg == Message(r.header)
      && sent == r.sent
      && output.Status() == r.status
    ensures output.sqlUpdateResult == Some(true) ==> old(output.sqlUpdateResult) == Some(true)
  {
    ghost var init := output.Status();
    var headerData: Option<Header> := None;
    var calls: nat := 0;
    sent := [];
    for i := 0 to |accepter|
      invariant var r := Run(input, accepter[..i], env, init);
        && headerData == r.header
        && sent == r.sent
        && calls == r.steps
        && output.Status() == r.status
      invariant output.sqlUpdateResult == Some(true) ==> init.sqlUpdateResult == Some(true)
    {
      assert accepter[..i + 1][..i] == accepter[..i];
      if accepter[i] == HeaderTag {
        var h, s := HeaderRelease(input, output, env(calls));
        calls := calls + 1;
        headerData := h;
        sent := sent + SentList(s);
        // a nil Header only continues the loop, which is where control goes anyway
      }
    }
    assert accepter[..|accepter|] == accepter;
    msg := Message(headerData);
  }

  /**
    AsyncReleases. Only the API type "releases" is dispatched; any other type yields no
    response and leaves the output alone. The error list is always empty.
   */
  method AsyncReleases(accepter: seq<string>, input: InputReader.SDC, output: SDC, env: nat -> Effects)
    returns (response: Option<Message>, errors: seq<string>, sent: seq<Envelope>)
    modifies output
    ensures errors == []
    ensures input.apiType != ReleasesType ==> response.None? && sent == [] && unchanged(output)
    ensures input.apiType == ReleasesType ==>
      var r := Run(input, accepter, env, old(output.Status()));
      && response == Some(Message(r.header))
      && sent == r.sent
      && output.Status() == r.status
    // the release path only ever writes "failed" into SQLUpdateResult
    ensures output.sqlUpdateResult == Some(true) ==> old(output.sqlUpdateResult) == Some(true)
  {
    response, sent := None, [];
    if input.apiType == ReleasesType {
      var msg;
      msg, sent := ReleaseSqlProcess(input, output, accepter, env);
      response := Some(msg);
    }
    // an unknown type is only logged
    errors := [];
  }
}

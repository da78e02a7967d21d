# Article release caller: a Dafny model

This project models the decision logic of the article-release request handler in
`DPFM_API_Caller/caller.go`. The handler works in four steps:

- It routes a request by API type. Only `"releases"` is dispatched.
- It walks the caller's list of accepter tags. Each `"Header"` tag runs one release step.
- A release step reads the Header and copies the request's `IsReleaseled` flag onto it. It then sends the envelope
  `{message, function: "ArticleHeader", runtime_session_id}` to the SQL worker as a
  session-scoped broker request.
- It classifies the reply. A rejected reply sets the output SDC's status fields to
  `SQLUpdateResult = false` and `SQLUpdateError = "Header Data cannot release"`.

The database read (`HeaderRead`) and the broker call (`SessionKeepRequest`) are outside the
model. Each release step instead receives their outcomes as an `Effects` value: the Header the
read found (or none), and either a transport error or the decoded reply map. The dispatch loop
takes `env: nat -> Effects`, so the k-th Header step (counting from 0) sees `env(k)`. The
methods also return the envelopes they handed to the broker. That makes "no broker call"
something a contract can state.

Files:

- `wrappers.dfy`: `Option`, which stands in for Go's nilable pointers.
- `sdc.dfy`: the request SDC (a value), the `Header` and `Message` values, and the output SDC.
  The output SDC is a class, because the handler writes its status fields in place.
- `caller.dfy`: the reply and envelope types, and `CheckResult` and `GetBoolPtr`. It also holds
  the pure specifications `HeaderStep` (one release step) and `Run` (the loop over a prefix of
  the accepter list). The imperative handlers `HeaderRelease`, `ReleaseSqlProcess` and
  `AsyncReleases` carry `modifies output`, and each is proved against those specifications.
- `caller_properties.dfy`: lemmas about `HeaderStep` and `Run`.

In Go, `HeaderRead` returns a fresh Header that only the release step touches. The model
therefore treats the Header as a value, and its in-place flag update becomes a record update.

## Model

| member | source | states |
|---|---|---|
| `Caller.CheckResult` | DPFM_API_Caller/caller.go:105-116 | true iff the key `"result"` is present and its value is exactly the string `"success"`; a missing key, a non-string value or any other string gives false |
| `Caller.HeaderStep` | DPFM_API_Caller/caller.go:72-103 | the broker is called iff the read found a Header; the envelope has function `"ArticleHeader"`, the request's session id, and the read Header with only `IsReleaseled` replaced by the request's; a Header is returned iff the reply classifies as success, and it is the Header sent; the failure status is written iff a reply arrived and did not classify as success (a read miss or a transport error writes nothing) |
| `Caller.HeaderRelease` | DPFM_API_Caller/caller.go:72-103 | returns what `HeaderStep` specifies and sets the output status to the rejected status exactly when `HeaderStep` rejects; a read miss makes no broker call and leaves the output unchanged; a transport error returns nil and leaves the output unchanged; `SQLUpdateResult` only ever changes to false, through the fresh pointer `getBoolPtr(false)` (caller.go:92, 118-120) modelled as `Some(false)` |
| `Caller.ReleaseSqlProcess` | DPFM_API_Caller/caller.go:49-70 | the Message's Header, the envelopes sent and the final output status equal those of `Run` over the whole accepter list from the initial status; `SQLUpdateResult` is never set to true |
| `Caller.AsyncReleases` | DPFM_API_Caller/caller.go:33-47 | the error list is always empty; for any API type other than `"releases"` the response is nil, nothing is sent and the output is unchanged; for `"releases"` the response is the Message of `Run`; `SQLUpdateResult` is never set to true |
| `CallerProperties.RunStepsCount` | DPFM_API_Caller/caller.go:56-64 | the number of release steps equals the number of `"Header"` tags in the accepter list |
| `CallerProperties.RunWithoutHeaderTag` | DPFM_API_Caller/caller.go:55-69 | with no `"Header"` tag the Message's Header is nil, nothing is sent, no step runs and the status is untouched |
| `CallerProperties.RunHeaderIsLast` | DPFM_API_Caller/caller.go:56-60 | the Message's Header is what the step for the last `"Header"` tag returned (even when that is nil); that step is the one numbered by how many `"Header"` tags precede it |
| `CallerProperties.RunHeaderOnlyOnSuccess` | DPFM_API_Caller/caller.go:55-102 | a Header reaches the Message only if some step's reply classified as success, and it is then that step's read Header with only `IsReleaseled` replaced |
| `CallerProperties.RunStatus` | DPFM_API_Caller/caller.go:56-95 | the final status is the rejected status iff some release step was rejected; otherwise it is the initial status |
| `CallerProperties.RunNeverSetsSuccess` | DPFM_API_Caller/caller.go:91-95 | the final status is either the initial one or (`false`, `"Header Data cannot release"`); `SQLUpdateResult` is true at the end only if it was true at the start |
| `CallerProperties.RunIgnoresOtherTags` | DPFM_API_Caller/caller.go:56-64 | dropping every tag other than `"Header"` from the accepter list changes nothing (Header, status, envelopes, step count) |
| `CallerProperties.RunEnvelopes` | DPFM_API_Caller/caller.go:77-88 | every envelope sent has function `"ArticleHeader"`, the request's session id and the request's `IsReleaseled`; the number of envelopes sent equals the number of release steps whose read found a Header |
| `CallerProperties.ReleaseIdempotent` | DPFM_API_Caller/caller.go:83-102 | with the same request, a second release whose re-read returns either the original Header or the released one, and whose reply is any success reply, returns the same Header as the first |

## Left out

- The broker transport is not modelled: `SessionKeepRequest`, the session correlation, the `res.Success()` acknowledgement and the RabbitMQ client internals are network I/O in a library that is not part of this model. Only the outcome enters, as `TransportOutcome`. That outcome does not depend on the envelope sent.
- `HeaderRead` and the MySQL connector are database I/O and are not part of this model. Only the read's result enters, as `Option<Header>`. A read error and a read miss are the same `None`, as both give a nil Header in the source.
- Queue selection through `c.conf.RMQ.QueueToSQL()[0]` is configuration. The queue name is not recorded in the envelope, and the index-out-of-range panic an empty queue list would cause is not modelled.
- `NewDPFMAPICaller` and `context.Background()` are plumbing. The caller struct holds no state the logic reads.
- Logging (`log.Error`, `xerrors.Errorf` wrapping) is left out. It is a side effect with no observable logic.
- The commented-out revocation short-circuit in `headerRelease` is inert code, so it is not modelled.
- `Header` keeps its other columns only as an opaque `columns` map, because the Header type's definition is not part of this model. The output SDC keeps only the two status fields the handler writes.
- The `continue` after a nil Header in `releaseSqlProcess` is the loop's last statement, so it has no effect and the model has no branch for it.
- The error list `[]error` is modelled as a sequence of strings. The source always returns nil, which is the empty sequence here.

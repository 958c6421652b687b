/** The tables the pruner and the reader share: logged requests, use cases, and their members. */
module RequestLog {
  import opened Wrappers

  /** Times are microseconds. */
  const DAY: int := 86_400_000_000

  /** A logged request. `metadata` stands for the columns neither the pruner nor the reader asks about. */
  datatype Row = Row(
    createdAt: int,
    subject: Option<string>,
    username: Option<string>,
    useCase: Option<string>,
    operation: string,
    outcome: Option<string>,
    status: Option<int>,
    metadata: string,
    requestPayload: Option<string>,
    responsePayload: Option<string>)
  {
    predicate HasPayload() {
      requestPayload.Some? || responsePayload.Some?
    }

    function Cleared(): Row {
      this.(requestPayload := None, responsePayload := None)
    }
  }

  datatype UseCase = UseCase(storePayloads: bool, retentionDays: Option<int>, visibility: string)

  /** The read-model: use cases by slug, and the role of each member row by use case and subject. */
  datatype ReadModel = ReadModel(useCases: map<string, UseCase>, members: map<(string, string), string>)

  /** Python's `days or default`: an absent or zero period falls back. */
  function OrDefault(days: Option<int>, default: int): int {
    if days.None? || days.value == 0 then default else days.value
  }
}

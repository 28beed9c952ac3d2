/**
 One upstream request per configured URL and the normalisation of its outcome
 into a list of numbers. The request itself (an HTTP GET with a 500 ms timeout)
 is not modelled: its outcome is an input.
 */
module SourceClient {

  /** The `numbers` property of a response body. */
  datatype NumbersField =
    | NumberArray(values: seq<int>)  // an array
    | NotAnArray                     // missing, null, a string, a number, an object, ...

  /** The decoded response body (`res.data`). */
  datatype Body =
    | NullData                       // null or undefined: reading `.numbers` throws
    | Data(numbers: NumbersField)    // any other value

  /** What one upstream request produced. */
  datatype FetchOutcome =
    | Received(status: int, data: Body)  // a response arrived in time
    | TimedOut                           // no response within the 500 ms timeout
    | NetworkError                       // connection refused, name not resolved, ...

  /** The HTTP client resolves only for a 2xx status and rejects on every other. */
  predicate Resolves(outcome: FetchOutcome) {
    outcome.Received? && 200 <= outcome.status < 300
  }

  /** The outcome is a resolved response whose `numbers` is an array. */
  predicate DeliversArray(outcome: FetchOutcome) {
    Resolves(outcome) && outcome.data.Data? && outcome.data.numbers.NumberArray?
  }

  /**
   The `.then` / `.catch` pair on one request: a resolved response whose `numbers`
   is an array gives that array unchanged (duplicates and order kept); every other
   outcome, a rejection or an exception thrown by `.then` alike, gives `[]`.
   The function is total: no outcome makes it fail.
   */
  function Normalize(outcome: FetchOutcome): (numbers: seq<int>)
    ensures DeliversArray(outcome) ==> numbers == outcome.data.numbers.values
    ensures !DeliversArray(outcome) ==> numbers == []
  {
    match outcome
    case Received(status, data) =>
      if !(200 <= status < 300) then []  // rejected by the client, caught
      else (
        match data
        case NullData => []              // `.numbers` of null throws, caught
        case Data(NumberArray(values)) => values
        case Data(NotAnArray) => []
      )
    case TimedOut => []
    case NetworkError => []
  }

  /**
   `Promise.all(urls.map(...))`: one result per URL, and result `i` comes from the
   request made for `urls[i]`, whatever order the requests complete in.
   `network(i, u)` is the outcome of the request issued for position `i` to `u`.
   */
  function FanOut(urls: seq<string>, network: (nat, string) -> FetchOutcome): (results: seq<seq<int>>)
    ensures |results| == |urls|
    ensures forall i :: 0 <= i < |urls| ==> results[i] == Normalize(network(i, urls[i]))
  {
    if urls == [] then []
    else
      var rest := FanOut(urls[..|urls| - 1], network);
      rest + [Normalize(network(|urls| - 1, urls[|urls| - 1]))]
  }

  /**
   A source that fails, or answers without an array, contributes `[]` at its own
   position and changes nothing at the others: it never aborts the fan-out.
   */
  lemma FailingSourceIsIsolated(
    urls: seq<string>, network: (nat, string) -> FetchOutcome,
    network': (nat, string) -> FetchOutcome, j: nat)
    requires j < |urls|
    requires forall i :: 0 <= i < |urls| && i != j ==> network'(i, urls[i]) == network(i, urls[i])
    requires !DeliversArray(network'(j, urls[j]))
    ensures FanOut(urls, network') == FanOut(urls, network)[j := []]
  {
  }
}

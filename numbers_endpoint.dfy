/**
 The `GET /numbers` handler: read the URL list from the configuration, reject an
 empty list with 400, otherwise fan out, merge and answer `{numbers: [...]}`;
 a fault while awaiting or merging answers 500.
 */
module NumbersEndpoint {
  import opened UrlConfig
  import opened SourceClient
  import opened MergeEngine

  datatype Option<T> = None | Some(value: T)

  /** The JSON body of the response. */
  datatype Payload =
    | NumbersBody(numbers: seq<int>)  // `{numbers: [...]}`
    | ErrorBody(error: string)        // `{error: "..."}`

  datatype Response = Response(status: int, body: Payload)

  const NoUrlsMessage: string := "No URLs provided in .env"
  const ServerErrorMessage: string := "Server error"

  /** `process.env.URLS || ''`, parsed: an unset variable reads as the empty string. */
  function ConfiguredUrls(env: Option<string>): (urls: seq<string>)
    ensures env.None? ==> urls == []
    ensures env.Some? ==> urls == ParseUrls(env.value)
    ensures forall u :: u in urls ==> WellFormedUrl(u)
  {
    var raw := if env.Some? then env.value else "";
    ParseUrlsEmptyIff(raw);
    ParseUrls(raw)
  }

  /** Some source reported `x`. */
  predicate Reported(urls: seq<string>, network: (nat, string) -> FetchOutcome, x: int) {
    exists i :: 0 <= i < |urls| && x in Normalize(network(i, urls[i]))
  }

  /**
   The handler. `env` is the URLS variable, `network` the outcome of each request,
   and `runtimeFault` whether an exception escapes the awaiting and merging;
   none of the modelled steps throws, so that is a fault outside the model.
   */
  function Handle(env: Option<string>, network: (nat, string) -> FetchOutcome, runtimeFault: bool): (r: Response)
    ensures r.status == 400 <==> ConfiguredUrls(env) == []
    ensures r.status == 400 ==> r.body == ErrorBody(NoUrlsMessage)
    ensures r.status == 500 <==> ConfiguredUrls(env) != [] && runtimeFault
    ensures r.status == 500 ==> r.body == ErrorBody(ServerErrorMessage)
    ensures r.status in {200, 400, 500}
    ensures r.status == 200 ==>
              && r.body.NumbersBody?
              && StrictlyIncreasing(r.body.numbers)
              && forall x :: x in r.body.numbers <==> Reported(ConfiguredUrls(env), network, x)
  {
    var urls := ConfiguredUrls(env);
    if |urls| == 0 then
      Response(400, ErrorBody(NoUrlsMessage))
    else if runtimeFault then
      Response(500, ErrorBody(ServerErrorMessage))
    else
      var results := FanOut(urls, network);
      var merged := Merge(results);
      assert forall x :: x in merged <==> Reported(urls, network, x) by {
        forall x ensures Contributed(results, x) <==> Reported(urls, network, x) {
          if Contributed(results, x) {
            var i :| 0 <= i < |results| && x in results[i];
            assert x in Normalize(network(i, urls[i]));
          }
          if Reported(urls, network, x) {
            var i :| 0 <= i < |urls| && x in Normalize(network(i, urls[i]));
            assert x in results[i];
          }
        }
      }
      Response(200, NumbersBody(merged))
  }

  /**
   Without configured URLs the answer is the 400 error whatever the network would
   have answered: validation comes before any request and consults no outcome.
   */
  lemma NoUrlsRejectedBeforeFetching(
    env: Option<string>,
    network: (nat, string) -> FetchOutcome, network': (nat, string) -> FetchOutcome,
    fault: bool, fault': bool)
    requires env.None? || Blank(env.value)
    ensures Handle(env, network, fault) == Handle(env, network', fault')
    ensures Handle(env, network, fault) == Response(400, ErrorBody(NoUrlsMessage))
  {
    if env.Some? {
      ParseUrlsEmptyIff(env.value);
    }
  }

  /**
   When every source fails (or answers without an array) the endpoint still
   succeeds, with an empty list rather than an error.
   */
  lemma AllSourcesFailingGivesEmptyList(env: Option<string>, network: (nat, string) -> FetchOutcome)
    requires ConfiguredUrls(env) != []
    requires forall i :: 0 <= i < |ConfiguredUrls(env)| ==> !DeliversArray(network(i, ConfiguredUrls(env)[i]))
    ensures Handle(env, network, false) == Response(200, NumbersBody([]))
  {
    var urls := ConfiguredUrls(env);
    MergeAllEmpty(FanOut(urls, network));
  }

  /**
   Sources A -> [1, 2, 2], B -> timeout, C -> [2, 3] give `{numbers: [1, 2, 3]}`.
   */
  lemma ThreeSourceExample(env: Option<string>, network: (nat, string) -> FetchOutcome)
    requires |ConfiguredUrls(env)| == 3
    requires network(0, ConfiguredUrls(env)[0]) == Received(200, Data(NumberArray([1, 2, 2])))
    requires network(1, ConfiguredUrls(env)[1]) == TimedOut
    requires network(2, ConfiguredUrls(env)[2]) == Received(200, Data(NumberArray([2, 3])))
    ensures Handle(env, network, false) == Response(200, NumbersBody([1, 2, 3]))
  {
    var urls := ConfiguredUrls(env);
    var results := FanOut(urls, network);
    assert results[0] == [1, 2, 2];
    assert results[1] == [];
    assert results[2] == [2, 3];
    assert results == [[1, 2, 2], [], [2, 3]];
    MergeWithEmptySourceExample(results, [1, 2, 3]);
  }
}

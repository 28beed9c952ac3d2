# Number aggregation endpoint, modelled in Dafny

The server answers `GET /numbers`. It reads a comma-separated list of upstream URLs
from its configuration and rejects an empty list with `400 {error: 'No URLs provided in .env'}`.
Otherwise it requests every URL at once, turns each outcome into a list of numbers (`[]` on
any failure), flattens the lists, removes duplicates with a `Set`, and sorts numerically. It
answers `{numbers: [...]}`, or `500 {error: 'Server error'}` if an exception escapes.

The model is pure, as the handler is a chain of expressions:

- `JsString` (`js_string.dfy`): ECMAScript `trim` (its exact white-space set) and `split` on one character, with `join` as its inverse.
- `UrlConfig` (`url_config.dfy`): `split(',').map(trim).filter(Boolean)`.
- `SourceClient` (`source_client.dfy`): the outcome of one request as a datatype, the `.then`/`.catch` normalisation, and the index-preserving fan-out.
- `MergeEngine` (`merge_engine.dfy`): `flat`, `[...new Set(..)]`, `sort((a, b) => a - b)`, and the merge built from them.
- `NumbersEndpoint` (`numbers_endpoint.dfy`): the handler, from the URLS variable, the network outcomes and a fault flag to a status and a JSON body.

The network is an input: `network(i, u)` is the outcome of the request issued for position
`i` of the URL list, to URL `u`. A request either received a response (a status and a body)
or timed out or failed to connect. The HTTP client's default rule is modelled: only a 2xx
status resolves. The handler's `try` can only be left by a fault outside the modelled steps,
so that fault is a boolean input.

Three behaviours of the code are easy to miss:

- The code returns a `numbers` array unchanged. It does not drop non-numeric entries.
- The code does not check that a configured piece is an HTTP(S) URL. Any non-blank trimmed piece is requested.
- The code always sends `Authorization: Bearer ${accessToken}`, even when no token is configured. The header is outside this model.

## Model

| member | source | states |
|---|---|---|
| `JsString.SkipForward` | problem2/server.js:18 | the scan stops at the first index from `i` that is not white space, or at the end, and skips only white space |
| `JsString.SkipBackward` | problem2/server.js:18 | the scan stops just past the last character before `j` that is not white space, or at `lo`, and skips only white space |
| `JsString.Trim` | problem2/server.js:18 | `u.trim()` is an infix of `u` with only white space around it, and it neither starts nor ends with white space |
| `JsString.TrimEmptyIff` | problem2/server.js:18-19 | a piece trims to `''` (and is then dropped by `filter(Boolean)`) exactly when it is all white space |
| `JsString.TrimIdempotent` | problem2/server.js:18 | trimming twice is trimming once |
| `JsString.Split` | problem2/server.js:17 | `split(',')` gives at least one piece (`''` gives `['']`), and no piece holds a comma |
| `JsString.JoinSplit` | problem2/server.js:17 | joining the pieces of `split(',')` with commas gives back the input, so no character is lost or added |
| `JsString.SplitConcat` | problem2/server.js:17 | splitting `a,b` gives the pieces of `a` followed by the pieces of `b` |
| `JsString.SplitJoin` | problem2/server.js:17 | split inverts join for comma-free pieces, so Split's contract pins down its result |
| `UrlConfig.TrimEach` | problem2/server.js:18 | `.map(u => u.trim())` keeps the length and trims piece `i` into position `i` |
| `UrlConfig.DropEmpty` | problem2/server.js:19 | `.filter(Boolean)` keeps every non-empty string and nothing else; a one-string list is kept whole or dropped |
| `UrlConfig.DropEmptyConcat` | problem2/server.js:19 | filtering a concatenation filters each part in order, so with DropEmpty's one-string case the filter keeps order and repeats |
| `UrlConfig.ParseUrls` | problem2/server.js:16-19 | every parsed URL is non-empty, has no leading or trailing white space, and holds no comma |
| `UrlConfig.ParseUrlsConcat` | problem2/server.js:16-19 | the URLs of `a,b` are those of `a` followed by those of `b`, so non-blank pieces keep their left-to-right order |
| `UrlConfig.ParseUrlsPiece` | problem2/server.js:16-19 | a comma-free piece gives its trimmed self, or nothing when it is blank |
| `UrlConfig.ParseUrlsEmptyIff` | problem2/server.js:15-19 | the list is empty exactly when the raw string holds only commas and white space, which includes the unset default `''` |
| `NumbersEndpoint.ConfiguredUrls` | problem2/server.js:15-19 | an unset URLS variable reads as `''` and yields no URLs, a set one yields the URLs parsed from its value, and every configured URL is well formed |
| `SourceClient.Normalize` | problem2/server.js:34-38 | a 2xx response whose `numbers` is an array yields exactly that array; a non-array `numbers`, a null body, a non-2xx status, a timeout or a network error yields `[]` |
| `SourceClient.FanOut` | problem2/server.js:27-42 | one result per URL, and result `i` is the normalised outcome of the request for URL `i`, whatever the completion order |
| `SourceClient.FailingSourceIsIsolated` | problem2/server.js:34-42 | a failing source contributes `[]` at its own index and leaves every other result unchanged |
| `MergeEngine.Flatten` | problem2/server.js:43 | `results.flat()` holds a value exactly when some source result holds it |
| `MergeEngine.FlattenSingle` | problem2/server.js:43 | flattening a single list gives that list, repeats and order included |
| `MergeEngine.FlattenConcat` | problem2/server.js:43 | flattening concatenated results concatenates the flattenings in index order, which with FlattenSingle fixes `flat()` completely |
| `MergeEngine.Dedup` | problem2/server.js:44 | `[...new Set(s)]` has no duplicates, holds exactly the values of `s`, and is no longer than `s` |
| `MergeEngine.Insert` | problem2/server.js:44 | inserting into a sorted list keeps it sorted and adds exactly one occurrence of the value |
| `MergeEngine.Sort` | problem2/server.js:44 | `sort((a, b) => a - b)` returns an ascending permutation of its input |
| `MergeEngine.SortedPermutationUnique` | problem2/server.js:44 | any two ascending permutations of the same list are equal, so the sort algorithm the engine uses does not matter |
| `MergeEngine.Merge` | problem2/server.js:43-44 | the merged list is strictly ascending (sorted, no duplicates) and holds a value exactly when some source result holds it |
| `MergeEngine.MergeDependsOnlyOnValues` | problem2/server.js:43-44 | two result lists with the same contributed values merge to the same output |
| `MergeEngine.MergeOrderIndependent` | problem2/server.js:42-44 | reordering the per-source results leaves the merge unchanged |
| `MergeEngine.MergeIgnoresRepeats` | problem2/server.js:43-44 | repeats within a source's list do not change the merge |
| `MergeEngine.MergeAllEmpty` | problem2/server.js:43-46 | all-empty results, for instance when every source fails, merge to `[]` |
| `MergeEngine.MergeOfStrictlyIncreasing` | problem2/server.js:43-44 | a strictly ascending list alone merges to itself |
| `MergeEngine.MergeIdempotent` | problem2/server.js:43-44 | merging the merged output alone returns it unchanged |
| `MergeEngine.MergeExample` | problem2/server.js:43-44 | `[[3,1,2],[2,5]]` merges to `[1,2,3,5]` |
| `MergeEngine.MergeWithEmptySourceExample` | problem2/server.js:43-44 | `[[1,2,2],[],[2,3]]` merges to `[1,2,3]` |
| `NumbersEndpoint.Handle` | problem2/server.js:14-50 | status 400 with `No URLs provided in .env` exactly when no URL is configured; status 500 with `Server error` exactly when URLs exist and a fault escapes; otherwise 200 with a strictly ascending list holding exactly the values some source reported |
| `NumbersEndpoint.NoUrlsRejectedBeforeFetching` | problem2/server.js:15-25 | with an unset or blank configuration the answer is the 400 error, whatever the network outcomes and the fault flag |
| `NumbersEndpoint.AllSourcesFailingGivesEmptyList` | problem2/server.js:34-46 | when every source fails or sends no array, the answer is `200 {numbers: []}`, not an error |
| `NumbersEndpoint.ThreeSourceExample` | problem2/server.js:27-46 | sources answering `[1,2,2]`, a timeout and `[2,3]` give `200 {numbers: [1,2,3]}` |

## Left out

- Concurrency and the 500 ms timeout (`axios.get` with `timeout`, `Promise.all`). The outcome of each request is an input, and a timeout is one kind of outcome.
- Express routing, CORS, `dotenv`, the port, `app.listen` and console logging. These are plumbing with no effect on the response.
- The `Authorization` header and the access token. The header does not change how a response is handled.
- JavaScript number semantics. Numbers are mathematical integers, so the model has no NaN, no `-0`/`+0` under the `Set`'s SameValueZero, no fractions, and no precision loss above 2^53 in `a - b`.
- Non-numeric elements of a `numbers` array. The code passes them through unfiltered; the model's arrays hold integers only.
- The HTTP client's parsing of a response body. A body is given already decoded: null or undefined, or a value whose `numbers` field is or is not an array.
- Dedup: the contract states distinctness and membership, not that each value keeps the position of its first occurrence. The definition does keep that order, and the sort that follows makes it unobservable.
- Which exceptions reach the handler's `catch`. None of the modelled steps throws, so `Handle` takes the fault as a boolean. The one exception the code can raise inside `.then` is reading `.numbers` of a null body, and `.catch` absorbs it; the model covers that case.
- problem1/stock-prices/src/App.jsx, problem2/client/src/App.jsx and problem2/client/src/Components/NumberFetcher.jsx are not part of this model. They are user interface, random mock data and floating-point statistics.

# Pagoda search automation: a Dafny model of its data-handling core

The repository drives a grocery app through a proxy. Search requests are captured and
replayed with other keywords, and the products found are gathered into one catalogue.
This project models the deterministic parts of that pipeline as pure Dafny functions and
methods over in-memory values, and proves what each promises.

- **Capture addon** (`capture.dfy`, module `Capture`). This is the proxy addon's state machine.
  - A request whose URL contains `searchGoods` (case-sensitive) appends a record and writes the whole list out again.
  - A response to such a request replaces the one saved snapshot when its decoded body mentions `onSaleList`.
- **Request replayer** (`replayer.dfy`, module `Replayer`).
  - It rebuilds a request from a captured record: the required fields are checked, captured query parameters are merged with overrides, and a body is sent only when non-empty.
  - It sends the request through an HTTP client given as a function and keeps the JSON of a 200 response.
  - The batch loop replays every record with every parameter variation.
- **Keyword drivers**, in two variants.
  - The copying driver (`searcher.dfy`, module `Searcher`) filters recorded flows down to search requests. It then derives one request per keyword from the first of them by rewriting the `keywords` field of its JSON body, and skips a keyword whose body cannot be rewritten.
  - The root-level in-place driver (`api_searcher.py` at the top of the repository; `inplace.dfy`, module `InPlace`) rewrites the baseline itself and grows the saved request list after every keyword. It gives up on the whole run at the first exception.
- **Product extraction** (`extract.dfy`, module `Extract`).
  - It reads every `search_results_<keyword>.json` document and collects the items of `data.b2c.onSaleList` as (name, price) products under their keyword.
  - Each (name, price) key is kept only the first time it appears anywhere in the run.
- **Package check** (`prerequisites.dfy`, module `Prerequisites`). This parses `pip list` output, records the versions of the required packages, and gives the "all installed" verdict.

Shared vocabulary:
- `wrappers.dfy` holds `Option`.
- `strings.dfy` models the Python string operations the code relies on: `in`, `str.replace` with an empty replacement, `split('\n')`, `split()` and `lower()`.
- `json.dfy` holds a JSON value type, Python truthiness, member lookup, the `marker in str(value)` test, and a JSON text codec.

Modelling choices:
- The HTTP client is a parameter `send: HttpRequest -> Reply`.
- JSON text parsing and printing is a parameter `Codec`. Where a property needs `json.loads(json.dumps(x)) == x`, the lemma requires `Faithful(codec)`.
- Files and recorded flows are sequences of values.
- The keyword list of the driver is a parameter (the `search_keywords` module is not part of this model).
- The `pip install` outcome is a parameter `installs` giving, per package, `Installed`, `Failed` (the error is reported), or `Raises`. `Raises` covers pip that cannot be started, and error output that is not valid UTF-8, so the strict `decode()` in the handler raises.
- The order of the required-packages dictionary is a parameter `order`, which the install loop follows.

The root `api_searcher.py` reads `captured_requests.json` twice: once through the replayer's loader and once as "existing requests". Both reads name the same file. So the list of issued requests starts as the captured list itself. The "file missing, start from an empty list" branch cannot be reached: an empty or missing capture has already ended the run at `captured[0]`.

## Model

| member | source | states |
|---|---|---|
| JsonValues.FalsyValues | src/api_searcher.py:154 | a value is falsy (`if result:` fails) exactly when it is `None`, `False`, `0`, `""`, `[]` or `{}` |
| JsonValues.MentionsIffSomeText | src/pagoda_proxy.py:38 | `"onSaleList" in str(value)` holds exactly when one of the value's keys or strings, at any depth, contains the marker |
| Strings.RemoveAllAbsent | src/extract_products.py:13 | `str.replace(pat, "")` leaves a text that does not contain `pat` unchanged |
| Strings.RemoveAllKeepsUnmatchedPrefix | src/extract_products.py:13 | removing every occurrence leaves a prefix that contains no occurrence untouched and only works on the rest |
| Strings.JoinSplit | src/check_prerequisites.py:278 | `'\n'.join(s.split('\n')) == s`: splitting loses nothing |
| Strings.SplitJoin | src/check_prerequisites.py:278 | splitting a join of newline-free lines gives back exactly those lines |
| Strings.Split | src/check_prerequisites.py:278 | `s.split('\n')` always gives at least one piece, and no piece holds a newline |
| Strings.Fields | src/check_prerequisites.py:281 | every field `split()` returns is non-empty and holds no whitespace |
| Strings.FieldsOfJoin | src/check_prerequisites.py:281 | `' '.join(words).split()` gives back the words when they are non-empty and hold no whitespace |
| Strings.FieldsOfLayout | src/check_prerequisites.py:281 | `split()` gives back the words of any layout: leading whitespace, whitespace runs of any positive length between the words, trailing whitespace |
| Strings.Lower | src/api_searcher.py:54 | no upper-case ASCII letter is left after lower-casing |
| Strings.LowerIdempotent | src/api_searcher.py:54 | lower-casing an already lower-cased text changes nothing |
| Strings.LowerKeepsMatch | src/api_searcher.py:54 | any case variant of a pattern that occurs in a text occurs, lower-cased, in the lower-cased text |
| Extract.KeywordOf | src/extract_products.py:13 | removing the prefix and suffix never lengthens the name |
| Extract.KeywordOfPlainName | src/extract_products.py:13 | a file name that spells neither `search_results_` nor `.json` is its own keyword |
| Extract.KeywordOfResultFileName | src/extract_products.py:13 | the keyword read from `search_results_<k>.json` is `k`, provided `k` itself spells neither the prefix nor the suffix |
| Extract.Lookup | src/extract_products.py:18-22 | `key in j` is false for an object without the key, a list without it as an element and a string without it as a substring; it is true with a value only for an object holding the key; in every other case the test or the indexing after it raises |
| Extract.SaleItems | src/extract_products.py:18-24 | a null, numeric or boolean document, `data` or `b2c` raises; an object path with a level missing yields no items. When the object path is complete, a list `onSaleList` yields exactly its items, and a scalar one raises. An empty string or dict yields no items; a non-empty one raises, since its elements are text that cannot be indexed by a key |
| Extract.MissingPathAddsNothing | src/extract_products.py:18-22 | a file whose object path lacks `data`, `b2c` or `onSaleList` leaves the catalogue and the seen keys exactly as they were |
| Extract.ScalarLevelAborts | src/extract_products.py:18-22 | a file whose document, `data` or `b2c` is null, a number or a boolean makes the whole run write nothing |
| Extract.ProductOf | src/extract_products.py:25-28 | an item maps to a product exactly when it is an object with `goodsName` and a numeric `memberPrice`; the product's item is the name and its price in hundredths is `memberPrice` |
| Extract.Record | src/extract_products.py:30-33 | recording keeps every key in the output unique, marks the key seen, and does nothing for a key seen before |
| Extract.AddItems | src/extract_products.py:24-33 | a sale list either aborts exactly when one of its items cannot be mapped, or keeps the catalogue valid and only adds seen keys |
| Extract.AddFile | src/extract_products.py:13-33 | a file that is processed leaves the catalogue valid: no key twice, and every key listed is marked seen |
| Extract.AddFileFail | src/extract_products.py:15-33 | one file aborts the run exactly when it does not load, its path test or sale list raises, or one of its items cannot be mapped |
| Extract.AddFiles | src/extract_products.py:12-33 | the loop over files keeps the catalogue valid |
| Extract.AddFilesFail | src/extract_products.py:12-33 | the loop over files aborts exactly when some file does not load, has a path test that raises, has a sale list that cannot be iterated into item objects, or has an item that cannot be mapped |
| Extract.ExtractAllProducts | src/extract_products.py:6-41 | no output is written exactly when some file fails; otherwise no key occurs twice anywhere in the output and every listed keyword has at least one product |
| Extract.GroupSelect | src/extract_products.py:30-33 | grouping a stream by keyword lists exactly the keywords that occur, each with its products in stream order |
| Extract.FirstOccurrencesDistinct | src/extract_products.py:30-33 | keeping first occurrences leaves pairwise-distinct keys and never lengthens the stream |
| Extract.ExtractIsFirstOccurrencesGrouped | src/extract_products.py:8-33 | the output is the first occurrence of every key in the stream of all files' items, grouped by keyword |
| Extract.OutputKeywords | src/extract_products.py:12-33 | a keyword is in the output iff a first occurrence was kept under it, and its list is those products in file order and then list order |
| Extract.OutputCountBound | src/extract_products.py:24-33 | the output never holds more products than the sale lists hold items |
| Replayer.LoadCapturedRequests | src/request_replayer.py:13-22 | a missing file and a file that is not valid JSON both load as an empty list; otherwise the stored records load. `Capture.RunLoadsBack` shows that these are the records the capture addon wrote |
| Replayer.ParamsFor | src/request_replayer.py:42-46 | falsy captured params become an empty dict before the update; for a dict the override keys win and other captured keys are kept; a list can be copied but not updated, and other values raise |
| Replayer.BuildRequest | src/request_replayer.py:27-49 | nothing is built without `method`, `url` and `headers`; they are sent as captured; params are sent only when the record has a `params` key; the body is sent verbatim iff present and truthy |
| Replayer.OverridesIgnoredWithoutParams | src/request_replayer.py:42-46 | without a `params` key, the overrides make no difference to the request |
| Replayer.NoOverridesKeepsParams | src/request_replayer.py:42-46 | without overrides, dict params are sent exactly as captured |
| Replayer.ReplayRequest | src/request_replayer.py:24-67 | a request is issued iff one can be built, and a value is returned iff the reply has status 200 and a JSON body, which is then that body |
| Replayer.ReplayRecord | src/request_replayer.py:79-82 | the inner loop keeps the truthy results of one record over all variations, in variation order |
| Replayer.ReplayAllBound | src/request_replayer.py:78-82 | the batch holds at most one value per (record, variation) pair, and only truthy values |
| Replayer.ReplayWithModifications | src/request_replayer.py:69-87 | the batch is every truthy result in record-major, then variation, order; a missing, invalid or empty capture gives an empty batch |
| Capture.RecordOf | src/pagoda_proxy.py:18-28 | a record holds exactly url, method, headers, params and body, with the body null exactly when the request had no content |
| Capture.OnRequest | src/pagoda_proxy.py:16-32 | a URL without `searchGoods` changes nothing, and neither does a matching request whose body is not valid UTF-8 (the decode raises first); any other matching one appends one record, writes out the whole list, and leaves the snapshot alone |
| Capture.OnResponse | src/pagoda_proxy.py:34-43 | the request list is never touched; the snapshot is replaced exactly when the URL matches, the body decodes, and it mentions `onSaleList` |
| Capture.RunPersisted | src/pagoda_proxy.py:29-32 | after any sequence of hook calls, the file on disk holds the whole in-memory list, and nothing is written before the first capture |
| Capture.RunCaptured | src/pagoda_proxy.py:17-29 | the captured list is the records of the matching requests in arrival order |
| Capture.RunLoadsBack | src/pagoda_proxy.py:29-32 | the replayer's loader reads back exactly the captured records, in arrival order, from what the addon wrote. This assumes the addon's `data/captured_requests.json` and the replayer's `captured_requests.json` (relative to the working directory) are the same file, as when the run starts in `data/` |
| Capture.CapturedOnlyGrows | src/pagoda_proxy.py:29 | the list at any earlier point is a prefix of the list at any later point |
| Capture.RunSnapshot | src/pagoda_proxy.py:35-40 | there is no snapshot until a response qualifies, and then it is the body of the last qualifying response |
| Capture.CapturedRecordReplays | src/pagoda_proxy.py:18-28 | a captured record can always be rebuilt by the replayer, with its query merged with the overrides and a body exactly when the request had content |
| Searcher.CaseVariantIsSearchFlow | src/api_searcher.py:54 | a flow whose URL holds any case variant of `search` is a search flow |
| Searcher.FlowRecord | src/api_searcher.py:55-65 | a kept record has exactly the keys url, method and headers, plus body when the content is non-empty; url and method are text, headers is `dict(headers)`, and body is the content |
| Searcher.SearchRecordsAreSearchFlows | src/api_searcher.py:54-70 | a record is kept exactly when it is built from a flow whose lower-cased URL contains `search` |
| Searcher.SearchRecordsEmpty | src/api_searcher.py:54-81 | nothing is kept exactly when no flow matches, and never more records than flows |
| Searcher.ConvertFlows | src/api_searcher.py:18-81 | conversion fails exactly when no flow matches, and otherwise yields the records of the matching flows in order |
| Searcher.Derive | src/api_searcher.py:137-147 | derivation succeeds exactly when the baseline body is JSON object text, whatever the codec; a derived request has the baseline's fields, with only the body changed |
| Searcher.DeriveIgnoresKeyword | src/api_searcher.py:137-147 | whether a keyword is skipped does not depend on the keyword |
| Searcher.DerivedBody | src/api_searcher.py:141-147 | derivation succeeds exactly when the body is JSON object text, and the new body decodes to the old object with only `keywords` set to the keyword |
| Searcher.Attempted | src/api_searcher.py:130-132 | a keyword is attempted exactly when it is in the keyword list and is not "苹果" |
| Searcher.AttemptedConcat | src/api_searcher.py:130-132 | attempting distributes over concatenation, so attempted keywords keep their relative order |
| Searcher.AttemptedWithoutBaseline | src/api_searcher.py:130-132 | a keyword list without "苹果" is attempted in full and in order |
| Searcher.KeywordLoop | src/api_searcher.py:130-158 | at most one request is issued per keyword and at most one result file is written per issued request |
| Searcher.MalformedIssuesNothing | src/api_searcher.py:141-147 | when the baseline body is not JSON object text, every keyword is skipped and nothing is issued or written |
| Searcher.IssuedPerKeyword | src/api_searcher.py:130-150 | otherwise exactly one request is issued per attempted keyword, in order, and it is the one derived for that keyword |
| Searcher.ResultFiles | src/api_searcher.py:153-156 | at most one file is written for a replay, exactly when it returned a truthy value, and it holds that value under the keyword |
| Searcher.WrittenIffTruthy | src/api_searcher.py:150-158 | a result file holds the replay value of an attempted keyword, and every attempted keyword whose replay gave a truthy value gets one |
| Searcher.SearchAllKeywords | src/api_searcher.py:101-171 | the run stops when nothing matched or the baseline has no truthy body; otherwise the baseline is saved first under "苹果" and the keyword loop follows |
| InPlace.Advance | api_searcher.py:26-45 | "苹果" and an aborted run change nothing; a body that cannot be rewritten aborts; otherwise the rewritten baseline is appended and the whole list is saved |
| InPlace.Start | api_searcher.py:8-24 | the run starts consistent and not aborted from the first captured record; the issued list and the list on disk are exactly the captured list, and the only file written is the baseline record under "苹果" |
| InPlace.Loop | api_searcher.py:26-50 | an aborted run stays as it is; the issued list and the written files only grow, by at most one entry per keyword |
| InPlace.SearchAllKeywordsInPlace | api_searcher.py:8-50 | an empty or unloadable capture ends the run at once; otherwise the keywords run in order from the captured list until one raises |
| InPlace.LoopAborted | api_searcher.py:49-50 | once an exception has ended the run, no further keyword changes anything |
| InPlace.LoopConsistent | api_searcher.py:20-40 | the file on disk always equals the growing list, the captured records stay at its head, and its last entry is the current baseline |
| InPlace.DeriveTwice | api_searcher.py:32-34 | a rewritten body is again JSON object text, and rewriting it for another keyword gives what rewriting the original would give |
| InPlace.AdvanceWellFormed | api_searcher.py:32-45 | one step on a well-formed baseline appends the request the copying driver derives, and the new baseline derives the same requests as the old |
| InPlace.InPlaceMatchesCopies | api_searcher.py:26-45 | with a well-formed baseline the in-place driver never aborts, and it issues and writes exactly what the copying driver does |
| InPlace.MalformedBodyAbortsAtFirst | api_searcher.py:32-50 | a malformed baseline body aborts the run at the first keyword that is not "苹果", before anything is appended or saved |
| Prerequisites.InitialChecker | src/check_prerequisites.py:25-32 | a fresh checker has passed so far and requires exactly the four packages, with no version known for any |
| Prerequisites.ListingLines | src/check_prerequisites.py:278 | the parsed lines hold no newline |
| Prerequisites.HeaderIgnored | src/check_prerequisites.py:278 | the first two lines of the listing are never parsed, whatever they hold |
| Prerequisites.ParseLine | src/check_prerequisites.py:279-284 | a line gives a name and version exactly when `split()` finds at least two fields, and they are the first two fields |
| Prerequisites.ParseRow | src/check_prerequisites.py:281-284 | a row of name, version and further columns is read as that name and version, whatever whitespace pads and separates the columns |
| Prerequisites.ShortLineIgnored | src/check_prerequisites.py:279-283 | an empty line, a blank line and a line of a single column are skipped |
| Prerequisites.LatestNoneIffUnnamed | src/check_prerequisites.py:284-286 | a package gets a version from the listing iff some line names it |
| Prerequisites.LatestIsLastLine | src/check_prerequisites.py:284-286 | that version is the one on the last line naming the package |
| Prerequisites.ReadVersions | src/check_prerequisites.py:267-286 | the working copy keeps exactly the required names, and each gets its last listed version or keeps its stored one |
| Prerequisites.Verdict | src/check_prerequisites.py:288-310 | no verdict is returned exactly when the install attempt of some missing package raises. Otherwise the verdict is true iff every package has a version. The overall flag is cleared iff a missing package fails to install before any attempt has raised, in dictionary order |
| Prerequisites.NoRaiseCountsEveryFailure | src/check_prerequisites.py:288-308 | when no install attempt raises, the order does not matter: the flag is cleared iff some missing package fails to install |
| Prerequisites.CheckPythonPackages | src/check_prerequisites.py:266-310 | the stored packages are unchanged; versions, verdict (or none) and overall flag are as above for the lines after the header |

## Left out

- Network, proxy and file I/O are replaced by values. This covers the HTTP client, mitmproxy's flow reader and hook context, `glob`, `open` and `json.dump`. `glob`'s order is whatever sequence of files is given.
- JSON text is an abstract codec. Its round trip is a stated requirement, not a property of a concrete printer and parser.
- Floating point is not modelled. JSON numbers are integers, and a product's price stays in hundredths (`memberPrice`) rather than `memberPrice / 100`.
- Extract.KeyOf: the duplicate key is the pair (goodsName value, price in hundredths), not the text `f"{name}_{price}"`. The two differ only for distinct names that print alike (say `1` and `"1"`) or for prices beyond float precision.
- Capture.OnResponse: `"onSaleList" in str(value)` is modelled as the marker occurring in some key or string of the value. Python's `repr` quoting and escaping are not modelled.
- Strings.Lower: lower-casing is ASCII only. Python's full Unicode case mapping is not modelled.
- Strings.IsSpace: `split()` uses a fixed table of whitespace code points.
- Searcher.ConvertFlows: these cases are not modelled:
  - flows that lack a request or a URL attribute;
  - a failure to read the flow file;
  - UTF-8 decoding of the body (content is already text);
  - the failure to save the records.
- Searcher.SearchAllKeywords: the records are assumed to survive the trip through `captured_requests.json` unchanged. These are not modelled:
  - failures to write result files;
  - the final save of the issued list, which is returned instead;
  - pacing with `time.sleep`.
- Replayer.LoadCapturedRequests: a capture file that holds JSON other than a list of objects is not modelled.
- Prerequisites.CheckPythonPackages: the virtual-environment gate is not modelled, and neither is a failing `pip list` run, which raises. The order given for the install loop is assumed to list exactly the required packages, as a dictionary's key order does.
- Object key order is not kept. Objects are maps, so the order of keywords in `products.json` and of record fields is lost.
- Logging, `print` and `time.sleep` are left out.
- The rest of the repository is not part of this model: the app driver, the orchestration script, configuration constants, and the other prerequisite checks (processes, sockets, files).

# search-and-dropdown, modelled in Dafny

A model of the search core of the Android `SearchDropdownView` library. It covers:

- **the repository** (`SearchRepository`): its cache of results per query, the staleness rule that prunes it, and the URL a cache miss requests. That URL has the `{query}` template substituted, or `?q=`/`&q=` appended, with the query form-encoded.
- **the adapter's diff and label rules** (`DropdownAdapter`).
- **the view's search pipeline** (`SearchDropdownView`): text changes pass the `suppressNextSearch` filter, then a 300 ms debounce, then the `minChars` gate, then reach `fetchResults`. A click on a result selects it and echoes its label into the field. `fetchResults` reports either a success or an error.

Modules, one per file:

| file | module | what it holds |
|---|---|---|
| wrappers.dfy | `Wrappers` | `Option`, `Result` |
| text.dfy | `Text` | substring search, `Join`, Kotlin's UTF-16 `length` |
| records.dfy | `Records` | a result record, `Map<String, Any>`, as `map<string, V>` |
| form_encoding.dfy | `FormEncoding` | `URLEncoder.encode(s, "UTF-8")` (UTF-8, then form encoding), with a decoder |
| dropdown_adapter.dfy | `DropdownAdapter` | `areItemsTheSame`, `areContentsTheSame`, the row label |
| search_repository.dfy | `SearchRepository` | `CacheEntry`, `pruneStale`, `search`, URL construction |
| query_pipeline.dfy | `QueryPipeline` | the text pipeline as a function of the typing history |
| search_dropdown_view.dfy | `SearchDropdownView` | the view as an event-driven state machine |

## Modelling choices

- **Record values.**
  - The values of a record are a type parameter `V`.
  - Kotlin's `toString()` on a value is a parameter `show: V -> string`.
  - `equals` on values and on maps is Dafny's `==`.
- **The network and the clock** are parameters:
  - `fetch` maps a URL to the records or to the thrown error;
  - `now` is the clock reading in milliseconds.
- **Two models of the text pipeline.**
  - `QueryPipeline.Committed` is the pipeline written as a function of the whole typing history.
  - `SearchDropdownView.Run` is the view as a state machine. It has a pending debounce slot, the latch, the selected item, the repository, and a log of listener notifications.
  - `SearchDropdownView.RunDispatchesCommitted` proves that the two hand the same queries to `fetchResults`, with the same times, for any history in time order.
- **Debounce.**
  - A value leaves the debounce 300 ms after it arrived, unless the next value arrives less than 300 ms after it.
  - The last value always leaves, since the field then goes idle.
  - A query is searched at the moment it leaves the debounce.

### Where the code does not match its own comments and names

The model follows the code in each case.

- **TTL after construction.** The class comment at `SearchRepository.kt:12` says the TTL "can be updated at any time". The class has no setter for it, so the TTL is fixed once the repository is built.
- **Age equal to the TTL.** The comment at `SearchRepository.kt:40` says the cache is used when an entry is "younger than TTL". The prune at `SearchRepository.kt:34` removes an entry only when its age *exceeds* `ttlSeconds * 1000`, so an entry whose age equals the TTL is still a hit.
- **The suppression latch.** The flag's name, `suppressNextSearch` (`SearchDropdownView.kt:69`), suggests it affects one search. A click sets it and nothing in the view clears it, so after the first click no later text change reaches `fetchResults`. The model states this as behaviour (`LatchedRun`, `NothingAfterClickIsSearched`) and adds no reset.

Two further points about what the code does:

- **Space in the query.** `URLEncoder.encode` writes a space as `+`. Everything other than `a-z A-Z 0-9 . - * _` becomes `%XX` of its UTF-8 bytes, with upper-case hex.
- **Length of a query.** `minChars` is compared with Kotlin's `length`, which counts UTF-16 code units. A character outside the Basic Multilingual Plane counts twice (`Text.Utf16Length`).

## Model

| member | source | states |
|---|---|---|
| SearchRepository.PruneStale | search-and-dropdown/src/main/java/com/aviadkorakin/search_and_dropdown/SearchRepository.kt:31-36 | The pruned cache keeps exactly the entries whose age is at most `ttlSeconds * 1000`, unchanged, and drops every other key; nothing left is stale |
| SearchRepository.PruneIdempotent | search-and-dropdown/src/main/java/com/aviadkorakin/search_and_dropdown/SearchRepository.kt:31-36 | Pruning twice at the same time is the same as pruning once |
| SearchRepository.PruneFreshIsIdentity | search-and-dropdown/src/main/java/com/aviadkorakin/search_and_dropdown/SearchRepository.kt:31-36 | Pruning a cache with no stale entry changes nothing |
| SearchRepository.PruneLaterSubsumes | search-and-dropdown/src/main/java/com/aviadkorakin/search_and_dropdown/SearchRepository.kt:31-36 | Pruning at an earlier time and then a later one is the same as pruning at the later one |
| SearchRepository.PruneZeroTtl | search-and-dropdown/src/main/java/com/aviadkorakin/search_and_dropdown/SearchRepository.kt:31-36 | With a TTL of 0, an entry survives exactly when its timestamp is not before now |
| Text.SplitAt | search-and-dropdown/src/main/java/com/aviadkorakin/search_and_dropdown/SearchRepository.kt:58-60 | Splitting a URL at `{query}` gives pieces that join back to it and that hold no `{query}` |
| Text.ReplaceAfterPlainText | search-and-dropdown/src/main/java/com/aviadkorakin/search_and_dropdown/SearchRepository.kt:60 | Replacement proceeds left to right: text before the first occurrence is kept and that occurrence is replaced |
| Text.ReplaceJoin | search-and-dropdown/src/main/java/com/aviadkorakin/search_and_dropdown/SearchRepository.kt:60 | Replacing in pieces joined by the pattern joins the same pieces with the replacement |
| Text.ReplaceEveryOccurrence | search-and-dropdown/src/main/java/com/aviadkorakin/search_and_dropdown/SearchRepository.kt:58-60 | `replace` substitutes every occurrence, and the text contains the pattern exactly when it splits into more than one piece |
| Text.Replace | search-and-dropdown/src/main/java/com/aviadkorakin/search_and_dropdown/SearchRepository.kt:60 | A text without the pattern is left unchanged by `replace` |
| SearchRepository.BuildUrl | search-and-dropdown/src/main/java/com/aviadkorakin/search_and_dropdown/SearchRepository.kt:57-65 | Without `{query}`, the URL is the base URL, then `&` if the base has a `?` or else `?`, then `q=`, then text that decodes back to the query |
| SearchRepository.BuildUrlTemplate | search-and-dropdown/src/main/java/com/aviadkorakin/search_and_dropdown/SearchRepository.kt:58-60 | With `{query}`, every occurrence becomes the encoded query and the rest of the template is kept |
| SearchRepository.BuildUrlReplacesEveryPlaceholder | search-and-dropdown/src/main/java/com/aviadkorakin/search_and_dropdown/SearchRepository.kt:58-60 | A base URL holding `{query}` has at least two pieces around it, and the URL joins all of them with the encoded query |
| SearchRepository.EncodedQueryIsInert | search-and-dropdown/src/main/java/com/aviadkorakin/search_and_dropdown/SearchRepository.kt:57 | The encoded query holds no `{query}`, `?`, `&`, `=` or space, so it cannot break the URL it is put into |
| SearchRepository.EncodeSpaceExample | search-and-dropdown/src/main/java/com/aviadkorakin/search_and_dropdown/SearchRepository.kt:57 | "c d" encodes as "c+d" |
| SearchRepository.BuildUrlAppendExample | search-and-dropdown/src/main/java/com/aviadkorakin/search_and_dropdown/SearchRepository.kt:62-64 | "https://x/search" with "c d" requests "https://x/search?q=c+d" |
| SearchRepository.BuildUrlExtendExample | search-and-dropdown/src/main/java/com/aviadkorakin/search_and_dropdown/SearchRepository.kt:62-64 | "https://x/search?a=1" with "c d" requests "https://x/search?a=1&q=c+d" |
| SearchRepository.PlainBase | search-and-dropdown/src/main/java/com/aviadkorakin/search_and_dropdown/SearchRepository.kt:63 | A base URL without `?` has no `{query}` and takes `?` as its separator |
| SearchRepository.ParameterBase | search-and-dropdown/src/main/java/com/aviadkorakin/search_and_dropdown/SearchRepository.kt:63 | A base URL that already has a `?` takes `&` as its separator |
| SearchRepository.AppendExample | search-and-dropdown/src/main/java/com/aviadkorakin/search_and_dropdown/SearchRepository.kt:62-64 | A base URL without `{query}` gets its separator, `q=` and the encoded query appended, and nothing else |
| SearchRepository.Search | search-and-dropdown/src/main/java/com/aviadkorakin/search_and_dropdown/SearchRepository.kt:42-79 | A hit returns the stored results with no request. A miss requests `BuildUrl` and returns what is fetched. The query is cached exactly when the outcome is a success, with those results. Other keys stay exactly when fresh. URL and TTL are unchanged |
| SearchRepository.SearchStoresFreshResults | search-and-dropdown/src/main/java/com/aviadkorakin/search_and_dropdown/SearchRepository.kt:42-79 | On a hit or a failure the cache is the pruned cache; on a fetched success it is the pruned cache plus the new entry stamped `now` |
| SearchRepository.SearchLeavesCacheFresh | search-and-dropdown/src/main/java/com/aviadkorakin/search_and_dropdown/SearchRepository.kt:42-79  | After a search with a non-negative TTL, no cached entry is stale at that time |
| SearchRepository.RepeatSearchWithinTtl | search-and-dropdown/src/main/java/com/aviadkorakin/search_and_dropdown/SearchRepository.kt:42-79 | After a miss that stores fetched results, repeating the query makes no request, and returns the same results, exactly when the elapsed time is at most the TTL; otherwise the same URL is requested again |
| FormEncoding.Utf8 | search-and-dropdown/src/main/java/com/aviadkorakin/search_and_dropdown/SearchRepository.kt:57 | A Unicode scalar encodes as exactly 1, 2, 3 or 4 UTF-8 bytes as it is below 0x80, below 0x800, below 0x10000 or above; every byte after the first is a continuation byte |
| FormEncoding.DecodeOneUtf8 | search-and-dropdown/src/main/java/com/aviadkorakin/search_and_dropdown/SearchRepository.kt:57 | Decoding the front of a character's UTF-8 bytes, whatever follows them, reads back that character and its byte count |
| FormEncoding.OverlongRejected | search-and-dropdown/src/main/java/com/aviadkorakin/search_and_dropdown/SearchRepository.kt:57 | The decoder rejects overlong forms, such as a two-byte `/` and a three-byte `i`, which the encoder never writes |
| FormEncoding.FormEncode | search-and-dropdown/src/main/java/com/aviadkorakin/search_and_dropdown/SearchRepository.kt:57 | Every output character is an unreserved character, `+` or `%`, and the output has 1 to 12 characters per input character; `FormRoundTrip` reads the escapes back |
| FormEncoding.PercentSafe | search-and-dropdown/src/main/java/com/aviadkorakin/search_and_dropdown/SearchRepository.kt:57 | Every `%XX` escape consists of form-safe characters |
| FormEncoding.Utf8RoundTrip | search-and-dropdown/src/main/java/com/aviadkorakin/search_and_dropdown/SearchRepository.kt:57 | Decoding the UTF-8 bytes of a string of scalars gives the string back |
| FormEncoding.FormRoundTrip | search-and-dropdown/src/main/java/com/aviadkorakin/search_and_dropdown/SearchRepository.kt:57 | Form-decoding the encoded query gives the query back |
| FormEncoding.FormEncodeInjective | search-and-dropdown/src/main/java/com/aviadkorakin/search_and_dropdown/SearchRepository.kt:57 | Different queries have different encodings, so different queries request different URLs |
| Text.ContainsAt | search-and-dropdown/src/main/java/com/aviadkorakin/search_and_dropdown/SearchRepository.kt:58 | `contains` holds exactly when the pattern occurs at some index |
| Text.Utf16Length | search-and-dropdown/src/main/java/com/aviadkorakin/search_and_dropdown/SearchDropdownView.kt:243 | Kotlin's `length` is between the number of characters and twice it; it is 0 only for empty text, and equals the number of characters exactly when none lies outside the Basic Multilingual Plane |
| Records.Get | search-and-dropdown/src/main/java/com/aviadkorakin/search_and_dropdown/DropdownAdapter.kt:28 | Looking up a field yields its value when present and nothing otherwise |
| DropdownAdapter.AreItemsTheSame | search-and-dropdown/src/main/java/com/aviadkorakin/search_and_dropdown/DropdownAdapter.kt:24-29 | Two records are the same item when both lack the display field, or both have it with equal values; never when only one has it |
| DropdownAdapter.AreContentsTheSame | search-and-dropdown/src/main/java/com/aviadkorakin/search_and_dropdown/DropdownAdapter.kt:31-43 | The size check plus the per-key comparison holds exactly when the two maps are equal |
| DropdownAdapter.ItemsTheSameIsEquivalence | search-and-dropdown/src/main/java/com/aviadkorakin/search_and_dropdown/DropdownAdapter.kt:24-29 | Item identity is reflexive, symmetric and transitive |
| DropdownAdapter.ItemsTheSameIgnoresOtherFields | search-and-dropdown/src/main/java/com/aviadkorakin/search_and_dropdown/DropdownAdapter.kt:24-29 | Changing a field other than the display field keeps the item the same |
| DropdownAdapter.ContentsTheSameReflexiveSymmetric | search-and-dropdown/src/main/java/com/aviadkorakin/search_and_dropdown/DropdownAdapter.kt:31-43 | Content equality is reflexive and symmetric |
| DropdownAdapter.ContentsTheSameImpliesItemsTheSame | search-and-dropdown/src/main/java/com/aviadkorakin/search_and_dropdown/DropdownAdapter.kt:24-43 | Equal contents imply the same item |
| DropdownAdapter.ItemsTheSameDoesNotImplyContents | search-and-dropdown/src/main/java/com/aviadkorakin/search_and_dropdown/DropdownAdapter.kt:24-43 | Two records can be the same item with different contents |
| DropdownAdapter.Label | search-and-dropdown/src/main/java/com/aviadkorakin/search_and_dropdown/DropdownAdapter.kt:57 | The row label is `show` of the display field's value, or empty when the record lacks the field |
| DropdownAdapter.SameItemSameLabel | search-and-dropdown/src/main/java/com/aviadkorakin/search_and_dropdown/DropdownAdapter.kt:57  | The same item always shows the same label |
| QueryPipeline.PassSuppression | search-and-dropdown/src/main/java/com/aviadkorakin/search_and_dropdown/SearchDropdownView.kt:241 | With the flag already up nothing passes; what passes is drawn, in order, from the typed text values |
| QueryPipeline.BeforeFirstClick | search-and-dropdown/src/main/java/com/aviadkorakin/search_and_dropdown/SearchDropdownView.kt:241 | The typing before the first click is a prefix of the history, holds only text changes, and is followed by the click if any |
| QueryPipeline.SuppressedPassesNothing | search-and-dropdown/src/main/java/com/aviadkorakin/search_and_dropdown/SearchDropdownView.kt:241 | With the flag up, nothing passes the filter |
| QueryPipeline.PassSuppressionIsBeforeFirstClick | search-and-dropdown/src/main/java/com/aviadkorakin/search_and_dropdown/SearchDropdownView.kt:241  | What passes the filter is exactly the text typed before the first click |
| QueryPipeline.ClickLatchesSuppression | search-and-dropdown/src/main/java/com/aviadkorakin/search_and_dropdown/SearchDropdownView.kt:241  | Nothing typed after a click ever passes the filter |
| QueryPipeline.Debounce | search-and-dropdown/src/main/java/com/aviadkorakin/search_and_dropdown/SearchDropdownView.kt:242 | The debounce emits no more values than it receives, and always emits the last one |
| QueryPipeline.DebounceMembership | search-and-dropdown/src/main/java/com/aviadkorakin/search_and_dropdown/SearchDropdownView.kt:242 | A value is emitted exactly when it is the last or the next value arrives at least 300 ms later |
| QueryPipeline.DebounceIsSubsequence | search-and-dropdown/src/main/java/com/aviadkorakin/search_and_dropdown/SearchDropdownView.kt:242 | The debounce keeps order and drops values, nothing else |
| QueryPipeline.DebounceCoalesces | search-and-dropdown/src/main/java/com/aviadkorakin/search_and_dropdown/SearchDropdownView.kt:242 | A burst with every gap under 300 ms emits only its last value |
| QueryPipeline.Gate | search-and-dropdown/src/main/java/com/aviadkorakin/search_and_dropdown/SearchDropdownView.kt:243 | The gate keeps, in order, only values whose length is at least `minChars` |
| QueryPipeline.GateCounts | search-and-dropdown/src/main/java/com/aviadkorakin/search_and_dropdown/SearchDropdownView.kt:243 | The gate keeps every copy of a long-enough value, repeats included, and no copy of any other |
| QueryPipeline.GateAppend | search-and-dropdown/src/main/java/com/aviadkorakin/search_and_dropdown/SearchDropdownView.kt:243 | The gate works value by value |
| QueryPipeline.GateKeepsLast | search-and-dropdown/src/main/java/com/aviadkorakin/search_and_dropdown/SearchDropdownView.kt:243 | A last value that is long enough is also the last value the gate keeps |
| QueryPipeline.Committed | search-and-dropdown/src/main/java/com/aviadkorakin/search_and_dropdown/SearchDropdownView.kt:240-245 | Every committed query is at least `minChars` long, and the last value typed before the first click, when long enough, is the last query committed, 300 ms after it was typed |
| QueryPipeline.CommittedQueries | search-and-dropdown/src/main/java/com/aviadkorakin/search_and_dropdown/SearchDropdownView.kt:240-245 | Each searched query is long enough, is non-empty when `minChars` is at least 1, and is a debounce-surviving value typed before the first click, emitted 300 ms after it was typed |
| QueryPipeline.CommittedInOrder | search-and-dropdown/src/main/java/com/aviadkorakin/search_and_dropdown/SearchDropdownView.kt:240-245 | Searched queries come in typing order |
| QueryPipeline.CoalescingExample | search-and-dropdown/src/main/java/com/aviadkorakin/search_and_dropdown/SearchDropdownView.kt:240-245 | "a", "ab", "abc" typed 50 ms apart search only "abc", at 400 ms |
| QueryPipeline.CommittedSingle | search-and-dropdown/src/main/java/com/aviadkorakin/search_and_dropdown/SearchDropdownView.kt:240-245 | A single text change is searched 300 ms later exactly when its length reaches `minChars` |
| QueryPipeline.MinCharsExample | search-and-dropdown/src/main/java/com/aviadkorakin/search_and_dropdown/SearchDropdownView.kt:243 | With `minChars` 3, "ab" is not searched and "abc" is |
| SearchDropdownView.FetchResults | search-and-dropdown/src/main/java/com/aviadkorakin/search_and_dropdown/SearchDropdownView.kt:250-273 | Shows loading, then exactly one of success with the repository's results, also shown in the list, or the error. It is success exactly when the search succeeds, the list is unchanged on error, and the repository becomes the one the search leaves behind |
| SearchDropdownView.OnTextChanged | search-and-dropdown/src/main/java/com/aviadkorakin/search_and_dropdown/SearchDropdownView.kt:240-242 | The field takes the text, and it replaces the pending value only when the flag is down; the flag, selection, repository, list, dispatched queries and notifications are unchanged |
| SearchDropdownView.OnClick | search-and-dropdown/src/main/java/com/aviadkorakin/search_and_dropdown/SearchDropdownView.kt:183-198 | Sets the flag and the selected item, sets the field to the label (empty without the display field), and notifies the selection listener. The pending query, the cache and the list are untouched |
| SearchDropdownView.Step | search-and-dropdown/src/main/java/com/aviadkorakin/search_and_dropdown/SearchDropdownView.kt:240-247 | One event: a text change sets the field and keeps the selection; a click selects the row and writes its label; the repository's URL and TTL stay; at most one query is dispatched; the notifications only grow |
| SearchDropdownView.Run | search-and-dropdown/src/main/java/com/aviadkorakin/search_and_dropdown/SearchDropdownView.kt:240-247 | After a history with the field left idle nothing is pending; the repository's URL and TTL stay; at most one query per event and one more are dispatched, appended to the earlier ones; the notifications only grow |
| SearchDropdownView.RunDispatchesCommitted | search-and-dropdown/src/main/java/com/aviadkorakin/search_and_dropdown/SearchDropdownView.kt:240-247 | For events in time order, the view hands `fetchResults` exactly the queries of the pipeline function `Committed` |
| SearchDropdownView.RunDispatchesUpcoming | search-and-dropdown/src/main/java/com/aviadkorakin/search_and_dropdown/SearchDropdownView.kt:240-247 | From any state, the queries dispatched are those already dispatched, then the pipeline applied to the pending value and the events |
| SearchDropdownView.RunReportsOneOutcomePerQuery | search-and-dropdown/src/main/java/com/aviadkorakin/search_and_dropdown/SearchDropdownView.kt:250-273 | Each query dispatched produces a loading notice followed by exactly one success or error notice |
| SearchDropdownView.StepNeverClearsSuppression | search-and-dropdown/src/main/java/com/aviadkorakin/search_and_dropdown/SearchDropdownView.kt:185  | No event lowers the flag, and a click raises it |
| SearchDropdownView.LatchedRun | search-and-dropdown/src/main/java/com/aviadkorakin/search_and_dropdown/SearchDropdownView.kt:241  | With the flag up, the only query still dispatched is the one already pending, if it is long enough |
| SearchDropdownView.NothingAfterClickIsSearched | search-and-dropdown/src/main/java/com/aviadkorakin/search_and_dropdown/SearchDropdownView.kt:240-247  | The searches are those of the text typed before the first click, whatever follows the click |
| SearchDropdownView.PendingQuerySurvivesClick | search-and-dropdown/src/main/java/com/aviadkorakin/search_and_dropdown/SearchDropdownView.kt:240-247 | Text typed before a click is still searched, 300 ms after it was typed, when long enough, though the click has raised the flag |
| SearchDropdownView.ClickExample | search-and-dropdown/src/main/java/com/aviadkorakin/search_and_dropdown/SearchDropdownView.kt:240-247 | "par" typed 100 ms before a click is still searched, at 300 ms |
| SearchDropdownView.RunSelection | search-and-dropdown/src/main/java/com/aviadkorakin/search_and_dropdown/SearchDropdownView.kt:183-198  | The selected item is the last record clicked, and the selection listener receives exactly the clicked records in order |
| SearchDropdownView.RepeatQueryServedFromCache | search-and-dropdown/src/main/java/com/aviadkorakin/search_and_dropdown/SearchDropdownView.kt:250-273  | A query searched again within the TTL of a successful miss is served from the cache and shows the same results |

## Left out

- Coroutines, `Mutex` and `Dispatchers`: searches are modelled as atomic and in order, one at a time. The three lock regions of `search` and interleaved searches are not modelled.
- `conflate` in `textChanges` (`EditTextExtensions.kt`): the model assumes every text change reaches the filter.
- Retrofit, Gson and `create`: the network is the parameter `fetch`, which returns the records or the error.
- `invokeCallback`: the reflective calls of the named success and error methods are not modelled. The listeners are modelled as always registered.
- Layout, attributes, colours, Glide, visibility of the progress bar and the list, and logging.
- `MainActivity` and the build files.
- SearchRepository.IsStale: `ttlSeconds * 1_000L` and the clock are Kotlin `Long`s; the model uses unbounded integers and does not model overflow.
- Records.Get: JSON `null` values are not modelled.
- FormEncoding.FormEncode: unpaired surrogate characters are not modelled. The encoder is defined on strings of Unicode scalars, where `URLEncoder` would write a replacement byte.
- SearchDropdownView.FetchResults: listeners are assumed not to throw; in the source a throwing success listener also reaches the error listener, because the success call at `SearchDropdownView.kt:265` sits inside the `try` whose `catch` (`:267`) calls the error listener.
- SearchDropdownView.FetchResults: the search runs at the moment the query leaves the debounce. Its response is not delayed, so a response cannot arrive out of order. The code has no guard against a late response to an older query, and the model adds none.
- SearchDropdownView.Run: the list is submitted results only; `submitList`'s diff animation is not modelled beyond the adapter's two comparisons.

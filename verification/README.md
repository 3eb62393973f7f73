# Hoverfly: request matching, cache and simulations

Hoverfly is a proxy that records HTTP traffic and replays it. This project models what its
core does with a request and proves what a user may rely on:

- the **first-match search** over stored request matchers, with the header matcher that rewrites
  the request's header map while walking it, and the greedy glob matcher;
- the **request cache** in front of that search, as a state machine over administrative calls and
  traffic, and the exact conditions under which it agrees with having no cache;
- the **canonical query string** on which matching, caching and import rest;
- **recording, export, import and upgrade** of simulations, and what each preserves;
- response delays, cache keys, Base64 bodies, and the random-name generator.

## How it is organised

| file | part |
|---|---|
| `Bytes`, `Sequences`, `Sorting`, `Wrappers` | byte strings, their order, sorted lists |
| `Pieces`, `QueryString` | pieces of a query told by position; `SortQueryString` and the canonical form |
| `Globs`, `FieldMatching`, `RequestMatching` | matching one request against the stored pairs |
| `HeaderWalks`, `HeaderMatching` | what walking a header map does to it, and the header matcher that does so |
| `MatchingLaws` | matching written out test by test, and its indifference to case in headers |
| `CacheKeys`, `CacheMatching` | the cache, its keys and preloading |
| `Recording`, `Delays`, `Base64`, `Views`, `VersionOne` | capture, delays, export, import, version 1 |
| `Engine` | the state of an instance and what every call does to it |
| `Hoverfly` | the instance with fields updated in place, each method refining its step of `Engine`, and its whole life refining a run |
| `TrafficLaws` | what traffic does, in terms of the HTTP request as it arrives |
| `Runs` | invariants of every reachable state |
| `Transparency`, `Limits`, `Soundness`, `CaptureReplay` | when answers are right, exactly when the cache is invisible, exactly when what is served accepts, and replay |
| `RandomName` | rejection sampling of letters |

Code that updates fields or maps is a class with methods (`HeaderMap`, `InMemoryCache`,
`CacheMatcher`, `Simulation`, `Hoverfly`); loops are loops. Every such method is proved against a
function of the old state, and the theorems are about runs of those functions.

External libraries (regular expressions, XPath, JSONPath, minifiers, MIME sniffing) are the
functions of a `Library` value over which every theorem quantifies. The order in which Go walks a
map is left open: the walk over the header map may take entries in any order and may or may not
produce the entries it creates. What middleware and the real service answer is part of each event.
Strings are byte strings. A nil map is kept apart from an empty one, as `reflect.DeepEqual` does.
The MD5 hash of a key is read as injective, so the key is the text that is hashed.

## What was found

- The cache is not transparent in general. `Limits.InvisibleIffAllAgree` gives the exact condition
  for any state and any set of requests, `Limits.InvisibleAfterSwitchIff` the one on the stored
  pairs alone after a switch to simulate on a flushed cache. `Limits.MissHidesHeaderPair`, `Limits.PreloadServesLast`,
  `Limits.KeysRunTogether` and `CaptureReplay.SchemesClash` are runs in which it is visible.
- The documentation describes the cache as holding what was served before
  (docs/pages/keyconcepts/modes/simulate.rst:11); the code also fills it from exact matchers when the mode
  changes, last pair first served, and remembers misses. The model follows the code.
- The order in which Go walks a header map can decide a match. The map a walk leaves depends on the
  order exactly when two names that are not lower-case and are equal up to case carry different
  values (`HeaderWalks.WalksAgreeIff`); a lower-case name always loses to such a name. The answer
  depends on it exactly when a value of one such name, read as a pattern, is not found among those
  of another (`HeaderWalks.AnswerSettledIff`, with a run in `HeaderWalks.OrderDecidesExample`). It
  is the answer for the untouched headers exactly when each value, read as a pattern, is found
  under every name that may overwrite its own (`HeaderWalks.AnswerPreservedIff`).
- A served response need not belong to a stored pair that accepts the request.
  `Soundness.AlwaysSoundIff` says exactly when it does, for any state and any set of requests, and
  `Soundness.SoundAfterSwitchIff` does so on the stored pairs alone after a switch to simulate on a
  flushed cache. Over whole runs it suffices that requests with one cache key agree on its fields
  and that the fully exact pairs present at each switch accept the request they are preloaded under
  (`Transparency.ServedResponsesSound`). Neither proviso can be dropped:
  `Limits.KeysRunTogether` fails the first, `Soundness.PreloadServedAmiss` the second.
- A captured response is not always what is replayed: `CaptureReplay.SchemesClash` is such a run
  and `CaptureReplay.CapturedIsServedExactly` says for all runs when it happens.
- The command line starts web servers whose cache still keys by host, since the cache is built
  before the flag is set (core/cmd/hoverfly/main.go:284 and 360). Their pairs accept any
  destination, so a preloaded pair decides only the requests with its own
  (`Transparency.ExactPairsMatchOwnKey`).
- The documentation lists header matching as exact (docs/pages/keyconcepts/simulations/pairs.rst:43); the code
  compares names without case and values as globs without case. The model follows the code.
- A JSON or XML body that does not minify is recorded as a matcher that rejects its own request
  (`Recording.CapturedAcceptsOwnRequest`).

## Model

| member | source | states |
|---|---|---|
| QueryString.SortQueryString | core/util/util.go:59-97 | for every input: the result has no byte 59 and single bytes 38 only between pieces; its pieces are those of the input between bytes 38 and 59, each as often, and ascend bytewise; terminates |
| QueryString.KeysDecideOrder | core/util/util.go:72-88 | grouping by key up to the first `=` does not disturb plain order: segments with different keys compare as their keys do |
| QueryString.PrintGroup | core/util/util.go:85-95 | printing the next sorted group keeps the output sorted and holding each segment of the printed keys as often as the input does |
| QueryString.CanonicalComplete | core/util/util.go:59-97 | two queries sort to the same string if and only if they hold the same multiset of segments |
| QueryString.CanonicalIdempotent | core/util/util.go:59-97 | sorting a sorted query changes nothing |
| QueryString.SegmentsOfJoin | core/util/util.go:59-97 | reading back printed segments yields exactly those segments |
| Sorting.SortedUnique | core/util/util.go:84-87 | a list has one sorted arrangement, so the sorting algorithm does not matter |
| Bytes.LeqIff | core/util/util.go:84-87 | the order sorted by: a prefix first, else the smaller byte at the first difference |
| Bytes.EqualFoldIff | core/models/delay.go:53 | equal up to case, byte by byte |
| Globs.Glob | vendor/github.com/ryanuber/go-glob/glob.go:11-56 | the leftmost-first search accepts exactly when some placement of the stars does |
| Globs.LeftmostSuffices | vendor/github.com/ryanuber/go-glob/glob.go:34-52 | taking the leftmost occurrence of a piece never loses a match |
| Globs.PatternMeansParts | vendor/github.com/ryanuber/go-glob/glob.go:22-29 | a pattern means what its pieces between stars mean in sequence |
| Globs.PatternConcat | vendor/github.com/ryanuber/go-glob/glob.go:11-56 | a pattern made of two accepts exactly the texts that fall into a part for each |
| Globs.OneBytePattern | vendor/github.com/ryanuber/go-glob/glob.go:6 | the pattern of byte 42 accepts everything, that of any other byte only itself |
| Globs.GlobTransitive | vendor/github.com/ryanuber/go-glob/glob.go:11-56 | a pattern that accepts a text, itself read as a pattern, accepts all that text accepts |
| HeaderMatching.LowerCaseNames | core/matching/header_matcher.go:12-16 | for every order the map ends as some walk of `HeaderWalks` leaves it: the lower-cased names, each with the values of a name it came from, never its own when another name lower-cases to it |
| HeaderMatching.HeaderMatcher | core/matching/header_matcher.go:9-37 | answers the side-effect-free case-insensitive predicate on the final map, and on the original one when nothing is lost; map untouched or wholly lower-cased |
| MatchingLaws.CaseIsIrrelevant | core/matching/header_matcher.go:18-27 | the case of names and values, wanted or present, does not influence a header match |
| MatchingLaws.CaseIsIrrelevantAfterWalks | core/matching/header_matcher.go:9-37 | nor the matcher's answer after its walks, as long as nothing is lost |
| MatchingLaws.ValueCaseIsIrrelevant | core/matching/header_matcher.go:9-37 | the case of values never does, whatever a walk loses |
| MatchingLaws.EqualUpToCaseMatches | core/matching/header_matcher.go:25-29 | values present up to case under names present up to case are found |
| HeaderWalks.WalkIsLowering | core/matching/header_matcher.go:12-16 | every walk, also one that meets its own entries again, leaves a lowering: the lower-cased names, each with the values of a name that may supply it, and a lower-case name supplies only what no other name overwrites |
| HeaderWalks.LoweringHasWalk | core/matching/header_matcher.go:12-16 | conversely every such map is what some walk leaves |
| HeaderWalks.WalksAgreeIff | core/matching/header_matcher.go:12-16 | all walks leave the same map if and only if names that are not lower-case and are equal up to case carry the same values |
| HeaderWalks.CoversIff | core/matching/header_matcher.go:23-34 | values have all that any pattern finds in others if and only if each of the others, read as a pattern, is found in them |
| HeaderWalks.AnswerSettledIff | core/matching/header_matcher.go:9-37 | all walks lead to the same answer, for all wanted headers, if and only if of any two such names each has the values of the other, read as patterns |
| HeaderWalks.AnswerPreservedIff | core/matching/header_matcher.go:9-37 | every walk leads to the answer for the untouched headers, for all wanted headers, if and only if each value, read as a pattern, is found under every name that may overwrite its own (nothing is lost) |
| HeaderWalks.DistinctNamesLoseNothing | core/matching/header_matcher.go:12-16 | nothing is lost when no two names are equal up to case |
| HeaderWalks.OrderDecidesExample | core/matching/header_matcher.go:9-37 | headers AB: x and Ab: y, wanted ab: x: one walk matches and another does not |
| HeaderWalks.LoweringPreservesMatch | core/matching/header_matcher.go:9-37 | a match after lower-casing was one before; if nothing is lost also the converse |
| RequestMatching.MatchRequest | core/matching/request_matcher.go:9-51 | returns the lowest-index pair accepted by the pure predicate, scheme ignored, destination only when proxying, in spite of the headers being rewritten on the way |
| MatchingLaws.FoundPairPasses | core/matching/field_matcher.go:7-41 | on each of the five compared fields, every kind of matcher of the pair that is found passes its own test: equality, equal minified XML or JSON, XPath, JSONPath, a regular expression that compiles and matches, glob |
| MatchingLaws.FoundPairHasHeaders | core/matching/header_matcher.go:9-37 | each header the found pair wants is there up to case, with a value for each wanted pattern, as globs without case |
| MatchingLaws.PassingPairIsFound | core/matching/request_matcher.go:9-51 | conversely, if all tests of a stored pair pass, it or an earlier one is found |
| RequestMatching.FirstMatchAppend | core/matching/request_matcher.go:11-49 | pairs stored behind a match are irrelevant, behind a miss they decide |
| RequestMatching.SearchedSameMatch | core/matching/request_matcher.go:40-42 | if nothing is lost, searching with the rewritten headers finds what searching with the original ones finds |
| CacheKeys.KeysReadBack | core/models/payload.go:103-118 | for slash-free destinations, rooted paths, one method first occurring at the path's end and one body length, equal keys mean equal destination, path, query and body |
| CacheKeys.KeysCollide | core/models/payload.go:103-118 | a body moved into an empty query leaves the key as it was |
| CacheKeys.OneFieldChangesKey | core/models/payload.go:103-118 | changing path, method, query, body, or destination where it counts changes the key; changing the scheme does not |
| CacheMatching.PreloadIsLastWins | core/matching/cache_matcher.go:166-177 | after preloading, a key holds the last fully exact pair stored under it, else what it held before |
| CacheMatching.CacheMatcher.GetCachedResponse | core/matching/cache_matcher.go:18-76 | finds exactly the entry under the request's key, or says whether the cache or the entry is missing |
| CacheMatching.CacheMatcher.SaveRequestMatcherResponsePair | core/matching/cache_matcher.go:119-156 | remembers pair or miss under the request's key, flagged when the pair wants headers, and touches no other key |
| CacheMatching.CacheMatcher.PreloadCache | core/matching/cache_matcher.go:166-177 | from an empty cache exactly the keys of pairs with exact values for all six fields are filled, and pairs that each lack one change nothing; in general the cache is left as storing every such pair in order does |
| CacheMatching.PreloadedKeys | core/models/request_matcher.go:123-143 | the keys that preloading fills, with the six conditions written out |
| Recording.Simulation.AddRequestMatcherResponsePair | core/models/simulation.go:20-31 | appends unless the matcher is already stored; nothing else changes |
| Recording.Save | core/hoverfly.go:297-355 | stores the exact matchers of all fields, the body by content type, the headers by whitelist |
| Recording.GetContentTypeFromHeaders | core/util/util.go:99-113 | the first content type that says JSON or XML decides |
| Recording.KindOfBytes | core/util/util.go:104-109 | a content type says JSON or XML if and only if it ends in those letters behind a slash or plus sign |
| Recording.BodyKindWrittenOut | core/util/util.go:99-113 | only the values under `Content-Type`, spelled so, count, and the first telling one decides |
| Recording.CapturedHeadersWrittenOut | core/hoverfly.go:312-327 | all headers for a leading star in the white list, else those it names that have values |
| Recording.CaptureLogShape | core/models/simulation.go:20-31 | recorded on an empty simulation, the pairs are the first entries of their matcher, in order of appearance |
| Recording.CapturedPairsDistinct | core/models/simulation.go:20-31 | recording keeps stored matchers pairwise distinct |
| Recording.AddAllExtends | core/models/simulation.go:20-31 | recording never alters or moves an earlier pair |
| Recording.CapturedAcceptsOwnRequest | core/hoverfly.go:297-350 | a recorded matcher accepts its own request if and only if a body typed JSON or XML minifies, for every whitelist |
| Recording.CapturedPreloadsItself | core/models/request_matcher.go:123-143 | a capture is preloaded under exactly the fields it was recorded from, and not at all with a JSON or XML body |
| Recording.CaptureThenReplay | core/hoverfly.go:297-355 | after recording, the request's first match is what it was before, else the recorded pair, else none when the body cannot be recognised |
| Recording.ReplaySurvivesCaptures | core/models/simulation.go:20-31 | a first match survives all further captures |
| Delays.Validate | core/models/delay.go:27-40 | accepts exactly the lists whose entries all have a pattern that compiles and a non-zero delay, else reports the first offender |
| Delays.GetDelay | core/models/delay.go:49-60 | finds the first entry whose pattern matches destination + path and whose method, if given, agrees up to case, every earlier one compiling and not applying; panics exactly on reaching one that does not compile |
| Delays.SearchPanicsIff | core/models/delay.go:49-60 | the search panics if and only if it gets to a pattern that does not compile, all earlier entries compiling and not applying |
| Delays.SearchFindsFirst | core/models/delay.go:49-60 | on valid delays the search never panics and finds the first entry matching destination + path and, if given, the method ignoring case |
| Base64.RoundTrip | core/models/payload.go:141-181 | decoding an encoded body gives it back, for every byte string |
| Base64.EncodedGroup | core/models/payload.go:177 | every group of three bytes is cut into four six-bit symbols, with absent bytes as zero bits and padding for symbols of absent bytes only |
| Base64.SymbolTable | core/models/payload.go:177 | the standard alphabet: capital and small letters, digits, plus sign, slash |
| Base64.SymbolValueIff | core/models/payload.go:145 | exactly the bytes of the alphabet have a value, that of their symbol |
| Base64.LineBreaksIgnored | core/models/payload.go:145 | line breaks anywhere do not influence decoding |
| Base64.BadGroupEndsDecoding | core/models/payload.go:145 | decoding keeps what precedes the first bad group of four and drops the rest |
| Views.ConvertToResponseDetailsView | core/models/payload.go:155-181 | encodes exactly when a content encoding is set or no supported MIME type is contained in the sniffed one |
| Views.NeedsEncodingWrittenOut | core/models/payload.go:155-172 | encoded exactly if `Content-Encoding` has a value or none of the eight supported types is part of the sniffed one |
| Views.ContainsIff | core/models/payload.go:166 | containment in a MIME type means to occur somewhere in it |
| Views.ResponseRoundTrip | core/models/payload.go:141-181 | an exported response is imported unchanged |
| Views.NewPairFromView | core/models/request_matcher.go:51-69 | builds the pair with its exact query sorted, and leaves the view with that query |
| Views.MatchersWrittenOut | core/models/request_matcher.go:10-49 | each of the seven kinds of matcher is imported and exported as the same kind |
| Views.ImportedPairWrittenOut | core/models/request_matcher.go:51-69 | each field of an imported pair comes from its own view, the exact query sorted and its other query matchers kept |
| Views.ExportedPairWrittenOut | core/models/request_matcher.go:71-111 | each field of an exported view is that of the pair |
| Views.PairRoundTrip | core/models/request_matcher.go:51-111 | export then import gives a pair back if and only if its exact query is canonical |
| VersionOne.Upgrade | core/handlers/v2/simulation_views.go:101-172 | the loop turns each version 1 pair into its exact-match counterpart and yields no delays |
| VersionOne.ExactViewWrittenOut | core/handlers/v2/simulation_views.go:110-144 | a present field becomes an exact matcher and nothing else, an absent one none |
| VersionOne.UpgradePreservesMeaning | core/handlers/v2/simulation_views.go:101-172 | an upgraded, imported pair accepts a request if and only if every present field but the scheme agrees, the query up to segment order, and the headers when the pair is explicitly not a recording |
| VersionOne.UpgradeKeepsFirstMatch | core/handlers/v2/simulation_views.go:101-172 | matching after the upgrade answers with the first version 1 pair that accepts, or not at all when none does |
| VersionOne.EchoingMiddleware | core/models/payload.go:79-101 | a request echoed by middleware arrives unchanged if and only if its query is canonical |
| VersionOne.RequestFromV1WrittenOut | core/models/payload.go:79-89 | each field of a request from middleware comes from its own field, absent ones empty, the query sorted |
| VersionOne.RequestToV1WrittenOut | core/models/payload.go:91-101 | each field goes to middleware under its own name |
| Hoverfly.Hoverfly.SetModeWithArguments | core/hoverfly_service.go:46-86 | refuses unknown modes, capture as web server and a star among other headers, changing nothing; else sets the mode, flushing for capture and preloading for simulate |
| Hoverfly.Hoverfly.SetResponseDelays | core/hoverfly_service.go:165-183 | replaces all delays, or none when one entry is bad |
| Hoverfly.Hoverfly.DeleteSimulation | core/hoverfly_service.go:227-232 | pairs and delays are gone and the cache is empty |
| Hoverfly.Hoverfly.ImportRequestResponsePairViews | core/import.go:140-160 | appends the imported pairs in order |
| Hoverfly.Hoverfly.PutSimulation | core/hoverfly_service.go:213-225 | appends the pairs even when the delays are then refused |
| Hoverfly.Hoverfly.ReplaceSimulation | core/handlers/v2/simulation_handler.go:60-83 | delete, which flushes, then import |
| Hoverfly.Hoverfly.GetSimulation | core/hoverfly_service.go:193-211 | exports every pair in order and the delays |
| Hoverfly.Hoverfly.GetResponse | core/hoverfly.go:263-294 | a cached miss or headerless pair decides; else the search decides and is remembered, misses included |
| Hoverfly.Hoverfly.CaptureExchange | core/modes/capture_mode.go:29-75 | records only after middleware, rebuilding and forwarding all succeed |
| Hoverfly.Hoverfly.ProcessRequest | core/hoverfly.go:215-237 | dispatches on the mode; no delay in capture mode or after an error |
| TrafficLaws.HostCaseIrrelevant | core/models/payload.go:70 | requests that differ only in the case of the host get the same answer and delay and leave the same state |
| TrafficLaws.ServedAgreesWithRaw | core/models/payload.go:52-77 | without a cache, what is served comes from a pair whose exact matchers agree with the raw path, method, body and lower-case host, and whose exact query has the raw query's pieces |
| TrafficLaws.RawValuesAreServed | core/models/payload.go:52-77 | conversely a pair of exact matchers on the raw request's own values makes it served |
| TrafficLaws.RememberedUnderRawKey | core/matching/cache_matcher.go:119-156 | a request on an empty cache leaves one entry, under the key made of its lower-case host, raw path, method, sorted query and body |
| TrafficLaws.CaptureRecordsRequest | core/modes/capture_mode.go:29-75 | what a capture without middleware stores, in terms of the request as it arrived |
| TrafficLaws.CaptureRecordsRewritten | core/modes/capture_mode.go:36-60 | with middleware, what it made of the request is stored, unless the destination is gone or forwarding failed |
| TrafficLaws.NothingRecorded | core/modes/capture_mode.go:36-50 | nothing is stored when a step fails or outside capture mode, and outside simulate mode nothing else changes either |
| TrafficLaws.DelayOfRaw | core/hoverfly.go:215-237 | a response is delayed by the first entry that matches host and path as they arrived, and not in capture mode or after an error |
| Hoverfly.Hoverfly.Handle | core/hoverfly.go:34-51 | every call on the live instance is a step of the run model |
| Engine.StepWrittenOut | core/hoverfly_service.go:165-232 | what put, delete, flush and the delay calls leave of pairs, delays and cache, and that they touch nothing else |
| Hoverfly.Live | core/cmd/hoverfly/main.go:284-360 | an instance that is built, given its imports and called any number of times is at the end of a run from an initial state, so the theorems about runs hold of it; it starts if and only if all imported delays are valid |
| Runs.RunKeeps | core/hoverfly_service.go:46-86 | the invariant holds in every reachable state, over all administrative calls, captures and requests |
| Runs.NoStaleEntries | core/hoverfly_service.go:73-78 | capture mode always has an empty cache; every cached miss is still a miss of its stored request and every cached pair is still stored |
| Runs.QueryOrderIrrelevant | core/models/request_matcher.go:51-55 | in every reachable state a stored exact query is canonical and equals a request's query exactly when the raw query has the same segments |
| Runs.RequestsCanonical | core/models/payload.go:52-89 | requests reaching matching or recording have canonical queries, even after middleware |
| Runs.DelaysAreSafe | core/models/delay.go:27-60 | in every reachable state the delay search does not panic and exported delays are accepted back |
| Runs.ExportThenImport | core/hoverfly_service.go:193-225 | for every reachable state, putting its export into any instance reproduces pairs, order and delays |
| Runs.WebserverNeverCaptures | core/hoverfly_service.go:60-63 | an instance started as web server is never in capture mode |
| Transparency.CacheTransparent | core/hoverfly.go:263-294 | without header matchers, with collision-free keys and faithful preloads, every answer in every reachable state, misses included, is the uncached one |
| Transparency.CacheTransparentForReadableKeys | core/models/payload.go:103-118 | the same without assuming collision-free keys, for requests with one method and body length whose keys can be read back |
| Transparency.AnswersExact | core/hoverfly.go:265-276 | with header matchers behind headerless pairs, every answer is the first match for the request's own headers, unless the key holds a remembered miss, and an error then |
| Transparency.ErrorsHideOnlyHeaderPairs | core/hoverfly.go:265-270 | an error that a search would not give hides only pairs that want headers |
| Transparency.ServedResponsesSound | core/matching/cache_matcher.go:119-177 | with collision-free keys and preloads that accept their own request, any served response belongs to a pair stored now whose fields and headers accept the request, also for ambiguous simulations and arbitrary header names |
| Soundness.AlwaysSoundIff | core/hoverfly.go:263-294 | from any state, every response served to any sequence of requests from a set belongs to a stored pair that accepts its request if and only if that holds of what the cache decides and of what a search for one request leaves for another with the same open key |
| Soundness.SoundAfterSwitchIff | core/hoverfly_service.go:73-78 | right after a switch to simulate on a flushed cache, the same if and only if it holds of each preloaded pair for its key's requests and, under other keys, of each headerless first match for all requests with that key |
| Soundness.LonePreload | core/matching/cache_matcher.go:166-177 | any single fully exact headerless pair is served to its own exact request after a switch, and rightly so if and only if it accepts it |
| Soundness.PreloadServedAmiss | core/matching/cache_matcher.go:166-177 | a run in which a preloaded pair with an exact value and a glob at odds is served although no stored pair accepts the request |
| Transparency.ExactPairsMatchOwnKey | core/models/request_matcher.go:123-143 | what a fully exact pair matches has the key fields it is preloaded under, but for the destination on a web server; the keys are equal if and only if the destinations are or do not enter the key |
| Limits.InvisibleIffAllAgree | core/hoverfly.go:263-294 | from any state, the cache is invisible to all sequences of requests from a set if and only if what it decides is right and requests sharing an open key agree once one is remembered |
| Limits.InvisibleAfterSwitchIff | core/hoverfly_service.go:73-78 | right after a switch to simulate on a flushed cache, the cache is invisible to all sequences of requests from a set if and only if each preloaded pair answers its key's requests as a search would, and under other keys a miss or headerless first match of one request is that of all |
| Limits.SwitchDecides | core/matching/cache_matcher.go:166-177 | whatever the cache held, a switch to simulate leaves each key decided by the last fully exact pair under it, open if that pair wants headers, and as it was if there is none |
| Limits.SwitchServesLastExact | core/matching/cache_matcher.go:166-177 | after any accepted switch to simulate, whatever its header list, a key with fully exact pairs is answered by the last of them, if headerless, whether or not it accepts the request or comes first |
| Limits.MissHidesHeaderPair | core/hoverfly.go:266-270 | a run in which a remembered miss hides a pair from a request that has its headers |
| Limits.PreloadServesLast | core/matching/cache_matcher.go:170-174 | a run in which preloading serves the second of two equal pairs where matching serves the first |
| Limits.KeysRunTogether | core/models/payload.go:103-118 | a run in which a request is served the response of a pair that rejects it |
| CaptureReplay.CapturesKeepFirsts | core/modes/capture_mode.go:29-75 | any traffic captured from an empty simulation leaves the first-recorded pair of each matcher, in order |
| CaptureReplay.CapturedIsFirstMatch | core/hoverfly.go:297-355 | a newly captured request has its captured response as first match after further captures and the switch to simulate |
| CaptureReplay.CapturedIsServedIff | core/hoverfly.go:263-355 | after capture, the switch to simulate and any traffic, with collision-free keys, faithful preloads and header-wanting pairs last, the captured response is served if and only if no request with its key has missed since the switch or there is no cache; recorded headers allowed |
| CaptureReplay.KeyAfterTraffic | core/hoverfly.go:263-294 | simulated traffic leaves a decided key as it was and has an open one decided by the first request with that key whose search misses or finds a headerless pair |
| CaptureReplay.CapturedIsServedExactly | core/hoverfly.go:263-355 | the same for any keys and pairs: the captured response is served if and only if there is no cache, or the pair preloaded under the key, if any, has it, and else the first request that decided the key, if any, was answered with it |
| CaptureReplay.CapturedIsServed | core/hoverfly.go:263-355 | under the conditions of a transparent cache the captured response is served whatever traffic comes in between |
| CaptureReplay.SchemesClash | core/matching/cache_matcher.go:170-174 | captured over http and then https, a resource is served as captured last where matching finds what was captured first |
| RandomName.GetRandomName | core/test_tools.go:69-84 | read backwards, the letters of the first n digits below 52 of the stream; ends whenever the stream has n of them |
| RandomName.LetterTable | core/test_tools.go:18 | the letters are the small and then the capital ones, in order |
| RandomName.DigitOfDraw | core/test_tools.go:18-22 | each draw gives ten digits, its lowest six bits first |
| RandomName.DigitsMakeUpDraw | core/test_tools.go:71-81 | the digits taken off a draw and the rest make up the draw: none is lost or used twice |

## Left out

- Regular expressions, XPath, JSONPath, JSON and XML minification, MIME sniffing: external libraries, arbitrary deterministic functions here.
- MD5: keys that differ are taken to hash differently.
- Gob encoding of cache entries: entries are stored decoded and decoding is taken to succeed; that an empty string behind a pointer decodes as nil plays no part in what is served.
- JSON text and schema validation: the model starts from the decoded view structures; that an empty header map is omitted in JSON and read back as nil is therefore not seen.
- BoltDB as cache store: its entries outlive the in-memory simulation, so the invariants of runs do not apply to it.
- Non-ASCII case folding: header names and values, hosts and methods are folded as ASCII, other bytes are left alone.
- Nil and empty lists of header values are not told apart when matchers are compared for duplicates.
- Base64.Decode: on malformed text it keeps what was decoded before the bad four-byte group; Go's treatment of text after final padding is not distinguished further.
- Views.NewPairFromView: the overwritten query of the view is returned instead of changed through a shared pointer.
- Synthesize and modify mode, and middleware on responses: they change no modelled state; whether they fail is part of the exchange.
- Interleaving inside one call: the stored simulation is not locked, and each call is one atomic step here.
- Changing middleware, destination or upstream proxy, reading the cache, logs, metrics, certificates, authentication: no influence on the modelled state.
- Time spent in a delay, sockets, processes, and the admin user interface.

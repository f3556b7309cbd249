# DeviceDiagnostics implementation: a Dafny model

A model of the core of the RDK DeviceDiagnostics service,
`plugin/DeviceDiagnosticsImplementation.cpp`. It covers these parts:

- **The notification registry** (`registry.dfy`, module `Registry`).
  - Register and Unregister, together with the reference counts the registry takes and releases on its sinks.
  - Dispatch, which fans one event out to every registered sink in registration order.
- **Decoder statuses** (`decoder_status.dfy`, module `DecoderStatus`).
  - The `decoderStatusStr` table and the `{"avDecoderStatusChange":"<NAME>"}` payload that onDecoderStatusChange sends.
  - getMostActiveDecoderStatus and GetAVDecoderStatus, with the resource manager compiled in or out.
- **The AV poll loop** (`poll.dfy`, module `AVPoll`). It is modelled as a fold over the wake-ups the thread experiences.
  - A wake-up with the run flag cleared ends the loop before any query.
  - A sample equal to `lastStatus` is skipped.
  - Any other sample becomes `lastStatus` and is notified.
- **GetConfiguration** (`configuration.dfy`, module `Configuration`).
  - The `{"paramList":[{"name":...},...]}` request body.
  - getConfig's success rule: curl result OK and HTTP code 0 or 200.
  - getConfig's scan of the response for name/value pairs, as a total function that stops at the first failed search.
- **Round trips for both directions of that exchange** (`configuration_roundtrip.dfy`, module `ConfigurationRoundTrip`).
- **getConfig's loop as written** (`getconfig_loop.dfy`, module `GetConfigLoop`).
  - It uses `std::string::find` with `npos` and wrapping `size_t` arithmetic.
  - It is related to the corrected scan (see Findings).
- **The milestones log** (`milestones.dfy`, module `Milestones`): getFileContent's line reader, GetMilestones, and LogMilestone.
- **Shared pieces** (`types.dfy`, `text.dfy`): result codes, `Option`, and a model of `std::string::find` for a pattern or a character.

Source cells give paths relative to the repository root, with line ranges.

## Model

| member | source | states |
|---|---|---|
| Registry.IndexOf | plugin/DeviceDiagnosticsImplementation.cpp:107-108 | The search used by Register and Unregister (`std::find` at lines 107 and 131) answers the first position holding the sink, or the list length exactly when the sink is absent. |
| Registry.Register | plugin/DeviceDiagnosticsImplementation.cpp:100-120 | Always ERROR_NONE. A new sink is appended at the end and gains one reference. A sink already present leaves the registry unchanged. The sink is present afterwards, and the list stays duplicate-free. |
| Registry.Unregister | plugin/DeviceDiagnosticsImplementation.cpp:122-146 | A present sink: ERROR_NONE, one reference released, the sink erased with every other sink kept in order. An absent sink: ERROR_GENERAL and nothing changes. |
| Registry.RegisterKeepsAccounting | plugin/DeviceDiagnosticsImplementation.cpp:100-120 | Registration keeps the invariant "each registered sink holds exactly one registry reference" and keeps the list duplicate-free. |
| Registry.UnregisterKeepsAccounting | plugin/DeviceDiagnosticsImplementation.cpp:122-146 | Removal keeps the same reference invariant and no duplicates. |
| Registry.HistoryKeepsAccounting | plugin/DeviceDiagnosticsImplementation.cpp:100-146 | The invariant holds after any sequence of Register and Unregister calls. |
| Registry.RegisterThenUnregister | plugin/DeviceDiagnosticsImplementation.cpp:100-146 | For a sink not yet registered, Register then Unregister gives ERROR_NONE and exactly the original registry, reference counts included. |
| Registry.RegisterIdempotent | plugin/DeviceDiagnosticsImplementation.cpp:106-115 | Registering the same sink twice is the same as registering it once. |
| Registry.Dispatch | plugin/DeviceDiagnosticsImplementation.cpp:153-174 | OnAVDecoderStatusChanged reaches every registered sink once, in list order, with the same payload. Any other event reaches none. |
| Registry.Fanout | plugin/DeviceDiagnosticsImplementation.cpp:162-166 | One delivery per registered sink, in list order, each carrying the same payload. |
| Registry.FanoutReachesEachOnce | plugin/DeviceDiagnosticsImplementation.cpp:162-168 | With no duplicates, a registered sink receives exactly one copy of the payload and an unregistered one receives nothing. |
| Registry.BroadcastPreservesOrder | plugin/DeviceDiagnosticsImplementation.cpp:148-174 | Over a series of events, each registered sink receives exactly the series of payloads, in order. |
| DecoderStatus.StatusName | plugin/DeviceDiagnosticsImplementation.cpp:46-51 | The table entry for a status is a non-empty name that the independent name decoder maps back to that status. |
| DecoderStatus.NameToStatus | plugin/DeviceDiagnosticsImplementation.cpp:46-51 | "IDLE", "PAUSED" and "ACTIVE" decode to 0, 1 and 2, each as an if-and-only-if. |
| DecoderStatus.StatusNameInjective | plugin/DeviceDiagnosticsImplementation.cpp:46-51 | Two statuses have the same name exactly when they are equal. |
| DecoderStatus.Payload | plugin/DeviceDiagnosticsImplementation.cpp:226-231 | The notification payload decodes back to its status and has the length of prefix, name and suffix. |
| DecoderStatus.PayloadInjective | plugin/DeviceDiagnosticsImplementation.cpp:226-231 | Distinct statuses give distinct payloads, so a sink can tell every transition apart. |
| DecoderStatus.MostActiveDecoderStatus | plugin/DeviceDiagnosticsImplementation.cpp:179-186 | With the resource manager compiled in, the status it reports. Otherwise 0, the idle status. |
| DecoderStatus.GetAVDecoderStatus | plugin/DeviceDiagnosticsImplementation.cpp:317-329 | Always ERROR_NONE. With the resource manager compiled in, the reported name decodes to the reported status. Otherwise it is "IDLE". |
| AVPoll.Samples | plugin/DeviceDiagnosticsImplementation.cpp:209-213 | The loop samples exactly the wake-ups before the first cleared run flag. |
| AVPoll.Poll | plugin/DeviceDiagnosticsImplementation.cpp:193-223 | One query per sample. The first notification differs from the starting lastStatus. No two consecutive notifications are equal. The final lastStatus is the last notified status, or the starting one if nothing was notified. |
| AVPoll.PollThread | plugin/DeviceDiagnosticsImplementation.cpp:195-223 | The thread starts from IDLE, so it never notifies IDLE first. |
| AVPoll.PollNotifiesSamples | plugin/DeviceDiagnosticsImplementation.cpp:212-219 | Only sampled statuses are notified, and at most one per sample. |
| AVPoll.Collapse | plugin/DeviceDiagnosticsImplementation.cpp:215-219 | Reference definition of the debounce: the first element is kept and no adjacent pair is equal. |
| AVPoll.PollCollapsesRepeats | plugin/DeviceDiagnosticsImplementation.cpp:193-223 | The notifications equal the samples, prefixed by the starting lastStatus, with runs collapsed and that start dropped. |
| AVPoll.StopEndsPolling | plugin/DeviceDiagnosticsImplementation.cpp:209-210 | Once the run flag is seen cleared, nothing later is queried or notified. |
| AVPoll.Payloads | plugin/DeviceDiagnosticsImplementation.cpp:226-231 | Each notified status becomes a payload that decodes back to it. |
| AVPoll.SinkSeesEachTransition | plugin/DeviceDiagnosticsImplementation.cpp:193-231 | End to end with a fixed duplicate-free registry: each registered sink receives one payload per status transition from IDLE, in order, and an unregistered sink receives none. |
| AVPoll.TickUnchanged | plugin/DeviceDiagnosticsImplementation.cpp:215-216 | A sample equal to lastStatus costs one query and notifies nothing. |
| AVPoll.TickChanged | plugin/DeviceDiagnosticsImplementation.cpp:218-219 | A different sample is notified and becomes lastStatus. |
| AVPoll.IdleThenTwoChanges | plugin/DeviceDiagnosticsImplementation.cpp:193-223 | Three idle samples, then `a` twice, then `b`: six queries and exactly the two notifications `a`, `b`. |
| Configuration.ReadNameIsNextQuotes | plugin/DeviceDiagnosticsImplementation.cpp:381-383 | The name opens at the first quote after the key's colon and closes at the first quote after that, with the text between them as the name. When no two quotes follow the colon, no name is read. |
| Configuration.ReadEntryIsNextKeys | plugin/DeviceDiagnosticsImplementation.cpp:381-389 | A pair read in full has ReadName's name. Its value starts after the first `"value":` past the name's closing quote and runs up to the first `}` after that, where the next search starts. |
| Configuration.ReadEntryMissingKeys | plugin/DeviceDiagnosticsImplementation.cpp:385-386 | When the name is read but no pair is, either no `"value":` follows the name or no `}` follows the first one. |
| Configuration.ParseFrom | plugin/DeviceDiagnosticsImplementation.cpp:379-390 | The corrected scan: every reported pair has a quote-free name and a brace-free value, and nothing is reported once no `"name":` key follows. ResponseRoundTrip and LoopAgrees are its partners. |
| Configuration.RequestEntries | plugin/DeviceDiagnosticsImplementation.cpp:242-247 | Each name takes eleven characters of framing (`{"name":"` and `"}`), and neighbouring entries are separated by one comma. |
| Configuration.BuildRequest | plugin/DeviceDiagnosticsImplementation.cpp:249-251 | The body opens with `{"paramList":[` and closes with `]}`. Its length is 16 for no names and otherwise the names' total length + 12 per name + 15. |
| Configuration.Succeeded | plugin/DeviceDiagnosticsImplementation.cpp:336-373 | Without a curl handle the result counts as success, because the curl code starts as CURLE_OK and the HTTP code as 0. Any curl error fails whatever the HTTP code. Any HTTP code other than 0 or 200 fails. |
| Configuration.GetConfig | plugin/DeviceDiagnosticsImplementation.cpp:331-394 | A list is returned exactly when the transfer succeeded (curl OK and HTTP 0 or 200). The list is the corrected scan of the response. Without a curl handle the result is success with no pairs. See "## Left out" for malformed responses. |
| Configuration.GetConfiguration | plugin/DeviceDiagnosticsImplementation.cpp:233-263 | Success exactly when getConfig succeeds on the request built from the names. Success gives ERROR_NONE and the scanned pairs. Failure gives ERROR_GENERAL and no list. |
| ConfigurationRoundTrip.ResponseRoundTrip | plugin/DeviceDiagnosticsImplementation.cpp:379-390 | A `{"paramList":[...]}` response encoding well-formed pairs scans back to exactly those pairs, in order, with every search succeeding. |
| ConfigurationRoundTrip.EncodedParse | plugin/DeviceDiagnosticsImplementation.cpp:379-390 | The same holds after any key-free preamble, such as an HTTP status line and headers. |
| ConfigurationRoundTrip.IntegrationTestResponse | Tests/L2Tests/tests/DeviceDiagnostics_L2Test.cpp:616 | The server response of the integration test scans to its two pairs. |
| ConfigurationRoundTrip.KeyedResponseYieldsNothing | plugin/DeviceDiagnosticsImplementation.cpp:379 | A response without `"name":` keys, such as `{"A":"1"}`, yields no pairs. |
| ConfigurationRoundTrip.RequestRoundTrip | plugin/DeviceDiagnosticsImplementation.cpp:242-251 | The request body lists the names, in input order: reading its `"name"` entries back gives the input names. |
| ConfigurationRoundTrip.IntegrationTestRequestLength | Tests/L2Tests/tests/DeviceDiagnostics_L2Test.cpp:615 | The body for the test's two names is 98 characters, the Content-Length the test expects. |
| ConfigurationRoundTrip.IntegrationTestConfiguration | Tests/L2Tests/tests/DeviceDiagnostics_L2Test.cpp:616-647 | When the exchange answers the request for the two test names with HTTP 200 and the server's response, GetConfiguration gives ERROR_NONE, success, and exactly the two pairs, whose names are the requested ones in order. |
| ConfigurationRoundTrip.ServerDownFails | Tests/L2Tests/tests/DeviceDiagnostics_L2Test.cpp:578-586 | When the transfer fails (no server), GetConfiguration gives ERROR_GENERAL, success false, and no list, whatever names were asked for. |
| GetConfigLoop.Wrap | plugin/DeviceDiagnosticsImplementation.cpp:381-388 | `size_t` arithmetic: the result lies in the 64-bit range and differs from the exact value by at most one turn of 2^64. |
| GetConfigLoop.FindPos | plugin/DeviceDiagnosticsImplementation.cpp:379-388 | `std::string::find` gives npos exactly when no match exists. Otherwise it gives the first match at or after the start (the general search's answer, whose first-ness is FindIsFirst). |
| GetConfigLoop.CharPos | plugin/DeviceDiagnosticsImplementation.cpp:381-388 | The same for a one-character pattern: npos exactly when the character does not occur from the start on, otherwise its first position (FindCharIsFirst). |
| GetConfigLoop.Substr | plugin/DeviceDiagnosticsImplementation.cpp:383-387 | `substr` returns the characters from the start position: the requested length, clipped at the end of the string. |
| GetConfigLoop.NameAsWritten | plugin/DeviceDiagnosticsImplementation.cpp:381-383 | The name half of an iteration as written: the name search stops at npos or at a quote of the response. When both quote searches succeed, the name is the text between the first quote after the key's colon and the next quote, and the search stops at that closing quote. |
| GetConfigLoop.ValueAsWritten | plugin/DeviceDiagnosticsImplementation.cpp:385-387 | The next search starts at npos or at a `}` of the response. |
| GetConfigLoop.StepAsWritten | plugin/DeviceDiagnosticsImplementation.cpp:381-389 | One iteration as written: the next search starts at npos or at a `}` of the response. |
| GetConfigLoop.LoopAsWritten | plugin/DeviceDiagnosticsImplementation.cpp:379-390 | The loop as written returns only once a key search fails, pushing one pair per iteration, so it returns fewer pairs than the iterations it was given. |
| GetConfigLoop.StepAgrees | plugin/DeviceDiagnosticsImplementation.cpp:381-387 | Where every search of an entry succeeds, the written iteration reads the same pair and stops at the same brace as the corrected scan. |
| GetConfigLoop.LoopAgrees | plugin/DeviceDiagnosticsImplementation.cpp:379-390 | On a response whose every search succeeds, the written loop finishes with exactly the corrected scan's pairs. |
| GetConfigLoop.SourceLoopAgrees | plugin/DeviceDiagnosticsImplementation.cpp:379-390 | Given one iteration more than the response has characters, the loop as written finishes on a well-formed response with the corrected scan's pairs. |
| GetConfigLoop.GetConfigMatchesSource | plugin/DeviceDiagnosticsImplementation.cpp:373-393 | On a successful transfer with a well-formed response, getConfig's reported list is the one the loop as written collects. |
| GetConfigLoop.TruncatedAsWritten | plugin/DeviceDiagnosticsImplementation.cpp:379-390 | On `"name":"a","value":"1"`, whose entry has no closing brace, the loop as written finishes with the single pair ("a", `"1"`). |
| GetConfigLoop.TruncatedCorrected | plugin/DeviceDiagnosticsImplementation.cpp:379-390 | The corrected scan reports nothing on that response and flags it as not well formed. |
| GetConfigLoop.FixpointNeverFinishes | plugin/DeviceDiagnosticsImplementation.cpp:379-390 | From a position that an iteration returns to, the written loop never finishes. |
| GetConfigLoop.LoopingNeverFinishes | plugin/DeviceDiagnosticsImplementation.cpp:379-390 | The written loop never finishes on the response `xxxxxxx}"name":"a"`. |
| GetConfigLoop.LoopingCorrected | plugin/DeviceDiagnosticsImplementation.cpp:379-390 | The corrected scan reports no pairs for that response and flags it as not well formed. |
| Text.FindIsFirst | plugin/DeviceDiagnosticsImplementation.cpp:379 | The search answers the first occurrence at or after the start, and None only when there is none. |
| Text.FindCharIsFind | plugin/DeviceDiagnosticsImplementation.cpp:381-386 | The per-character search answers exactly what the general search answers for the one-character pattern, as the source's `find("\"")` searches a one-character string. |
| Text.FindCharIsFirst | plugin/DeviceDiagnosticsImplementation.cpp:381-388 | The per-character search answers the first position of the character at or after the start, and None only when it does not occur there. |
| Milestones.Lines | plugin/DeviceDiagnosticsImplementation.cpp:412-418 | getFileContent's lines: each line read back takes at least one character of the file, so there are no more lines than characters. |
| Milestones.LinesAreLines | plugin/DeviceDiagnosticsImplementation.cpp:404-421 | Every line read back is non-empty and holds no newline. |
| Milestones.LinesSplit | plugin/DeviceDiagnosticsImplementation.cpp:413-417 | The lines of two texts joined by a newline are the lines of each, concatenated. |
| Milestones.JoinRoundTrip | plugin/DeviceDiagnosticsImplementation.cpp:413-417 | Non-empty, newline-free lines written one per line read back unchanged. |
| Milestones.GetFileContent | plugin/DeviceDiagnosticsImplementation.cpp:404-421 | Success exactly when the file opens. On success the result holds the non-empty lines in order. On failure it is empty. |
| Milestones.GetMilestones | plugin/DeviceDiagnosticsImplementation.cpp:265-297 | Success exactly when the file exists and opens, with ERROR_NONE and its non-empty lines. Otherwise ERROR_GENERAL and no list. |
| Milestones.LogMilestone | plugin/DeviceDiagnosticsImplementation.cpp:299-315 | Success and ERROR_NONE exactly when the marker is non-empty. The logger receives the marker exactly when it succeeds and the logger is compiled in. |
| Milestones.AppendLine | plugin/DeviceDiagnosticsImplementation.cpp:404-421 | Appending a line and a newline to a text that ends in a newline (or is empty) adds exactly that line to what is read back. |
| Milestones.LoggedMarkerIsLast | Tests/L2Tests/tests/DeviceDiagnostics_L2Test.cpp:446-471 | After a marker is logged to such a log, the lines read back are the old ones plus the marker, so the marker is the last line. |
| Milestones.EmptyMarkerLeavesLog | Tests/L2Tests/tests/DeviceDiagnostics_L2Test.cpp:436-444 | An empty marker fails with ERROR_GENERAL and leaves the log untouched. |

## Left out

- Threads, the mutexes, the condition variable and the 30-second wait are not modelled. The poll loop is a function of the sequence of wake-ups it sees, and lock ordering is not modelled.
- The worker pool behind dispatchEvent is not modelled: a submitted job is taken to run Dispatch synchronously, in submission order.
- Curl setup, the timeout and writeCurlResponse are not modelled.
  - The HTTP exchange is a parameter that returns the curl code, the HTTP code and the response text.
  - writeCurlResponse declares its last parameter as a `std::string` taken by value, while curl passes it the address of the response buffer. The behaviour is undefined, so the model takes the response text the exchange delivers as given.
- The resource manager (EssRMgr) and the RDK logger are foreign calls. The status the manager reports, and whether the logger and the manager are compiled in (RDK_LOG_MILESTONE, ENABLE_ERM), are parameters.
- File I/O: the milestones log is a parameter (missing, unopenable, or its text).
- JSON escaping in the request builder is not modelled: BuildRequest requires names the serialiser writes verbatim (no quote, backslash or control character).
- GetConfigLoop.LoopAsWritten: runs for at most `fuel` iterations, so "never finishes" is stated as "answers None for every fuel". Only responses shorter than 2^64 - 1 characters are considered.
- DecoderStatus.StatusCode: only 0..2. The source indexes its four-entry table, whose last entry is NULL, with the raw status and does not guard other values.
- Three behaviours of the code are modelled as written:
  - a repeated Register returns ERROR_NONE;
  - GetAVDecoderStatus queries the resource manager on each call rather than reading a cached value;
  - a response such as `{"A":"1"}`, with no `"name":` keys, yields an empty list.
- Configuration.GetConfig: the reported list is the corrected scan (ParseFrom), which agrees with the loop as written on well-formed responses only (GetConfigLoop.GetConfigMatchesSource). When a search inside an entry fails and the source's loop still finishes, the source keeps a pair built from npos positions and the model drops it. On `"name":"a","value":"1"` the source gives ("a", `"1"`) and the model gives nothing (GetConfigLoop.TruncatedAsWritten, GetConfigLoop.TruncatedCorrected).
- Configuration.GetConfiguration: inherits the same difference from GetConfig on malformed responses.
- Text: `std::string` is a byte string, but the model's `string` is a sequence of characters. Positions and lengths therefore agree with the source only on ASCII text. This covers the wrapped restart position 7 in the loop as written, and byte counts such as the request's Content-Length.

## Findings

| source | as written | input that shows it | evidently intended | confidence | as-written member | corrected member |
|---|---|---|---|---|---|---|
| plugin/DeviceDiagnosticsImplementation.cpp:379-390 | In getConfig's loop, a failed `"value":` search gives npos, and npos + 8 wraps to 7. The `}` search then restarts near the start of the response, `end` moves back before the key, and the loop finds the same `"name":` again forever, pushing a pair each time. | the response `xxxxxxx}"name":"a"` (an entry without a value key, after a brace) | stop scanning when a search inside an entry fails | not executed | GetConfigLoop.LoopingNeverFinishes | Configuration.ParseFrom (GetConfigLoop.LoopingCorrected; GetConfigLoop.LoopAgrees shows both agree on every well-formed response) |

# Verification model

Dafny models of the parts of this repository whose behaviour is decided by their own code, with
proofs of what they promise. `dafny verify dfyconfig.toml` checks the whole project.

| module | models |
|---|---|
| `Text`, `Utf8`, `Json` | shared vocabulary: Rust's character classes and numerals, UTF-8 (RFC 3629), and a JSON printer and reader as serde_json has them (RFC 8259) |
| `Encoding` | the isolate's UTF-8 bootstrap: validator, `encodeInto`, fatal decoding |
| `HostState` | the emit budget with its cached byte total, the checkpoint text, untrusted restore, and the isolate that installs a restored state |
| `Tenancy` | UUID texts, tenant scopes, storage keys and their parser |
| `Idempotency` | the in-memory store, and any number of clients in the middleware around it |
| `PgIdempotency`, `PgMiddleware` | the PostgreSQL store as atomic row transactions, refining the in-memory one, and the same clients around it |
| `MiddlewareAnswers` | which requests the middleware lets through and under which key, and what each client is answered |
| `DataForSeo` | the keyword escape and the canonical SERP task |
| `ToolCalls`, `Transcript` | the checks on a tool call, the calls and text of a response, the pending-set pass over a conversation, and continuing one with tool results |
| `Redaction` | redaction of secret-like tokens |
| `Keyset`, `WeeklyScan`, `ContentScan` | paged scans over tables that change while they are read |
| `PartnerSync`, `PartnerRest` | the batch and drain loop of partner synchronization, how long an operation takes, and when the runner comes to rest |
| `Grant` | the fingerprint of a model grant and the reference that carries it |

Code that changes things step by step is a method or a class here, and its contract ties it to a
function on values; the lemmas are about those functions. A Rust `String` is a Dafny `string`,
since a Dafny `char` is a Unicode scalar value. SHA-256 is a function parameter. Failures of
calls, page queries and transactions, and what other actors do between steps, are arbitrary.

## What the code does not meet

For each of these a lemma gives an input at which the property fails, and another the exact
condition under which the code meets it.

- `ignoreBOM` is meant to keep the text. A text that starts with two byte order marks loses the
  second: `DoubleBomLosesOne`, and `FatalDecodeKeepsText` for all texts.
- A legal state under limits looser than the defaults can print a checkpoint that its own restore
  refuses: `LooserLimitsRefuseOwnCheckpoint`, and `RestoreOwnCheckpoint` for all states.
- The unique index of `idempotency_records` folds a missing project into the nil UUID. A begin
  for the nil project after a tenant-wide one with the same key ends in "reservation
  disappeared": `NilProjectIsRefused`, and `BeginRefines` for all tables. (The table's foreign
  key makes it reachable only where a project with the nil UUID is stored.)
- A replay drops a content type that is empty or not visible ASCII: `EmptyContentTypeIsLost`,
  `ForeignContentTypeIsLost`, and `ReplayFidelity` for all responses.
- The partner runner can sleep while items are left to commit. One operation whose first call
  fails is enough (`ErrorHidesWork`); so are a hundred operations in front that defer, are
  complete or fail (`HundredHideWork`), and even, without a failure or a deferral, two hundred
  operations that all pause between two items (`SecondPassHidesWork`). `FirstSleepClears` says of
  every queue exactly when the first sleep leaves nothing, by `Clears` of the stored queue. Up to
  a hundred operations clear when no item stands behind a deferral and there is no number of calls
  at which nobody commits although somebody does after more. A longer queue is read a pass at a
  time: at its first hundred with no item at any head it clears when the operations before it had
  no item but their first and the others have none; without such a hundred it clears when the
  queue after the pass does. With nothing but items to commit every queue clears
  (`SleepsOnlyWhenDone`). What a sleep leaves is taken up at the next poll, and an operation that
  never defers is done within the number of batches that `DoneWithin` gives.

## Model

| member | source | states |
|---|---|---|
| Encoding.ValidUtf8 | crates/worker/src/encoding.js:14-43 | the byte-range loop ends and returns true exactly for the UTF-8 encodings of sequences of Unicode scalar values |
| Encoding.DecodingIsUnique | crates/worker/src/encoding.js:14-43 | a byte sequence encodes at most one text, so what a decoder returns is determined |
| Encoding.EncodeInto | crates/worker/src/encoding.js:48-66 | writes exactly the UTF-8 of the units read, lone surrogates as U+FFFD; stops on a scalar boundary; leaves the rest of the buffer; and stops early only when the next scalar does not fit |
| Encoding.LoneSurrogateBytes | crates/worker/src/encoding.js:55-59 | a surrogate without its other half adds exactly the bytes EF BF BD, whatever stands around it |
| Encoding.Utf16Converts | crates/worker/src/encoding.js:55-59 | the UTF-16 units of a text convert to that text |
| Encoding.FatalDecodeKeepsText | crates/worker/src/encoding.js:78-88 | with ignoreBOM a fatal decode gives back the encoded text exactly when the text does not start with two byte order marks |
| Encoding.DoubleBomLosesOne | crates/worker/src/encoding.js:82-86 | a text with two leading byte order marks comes back with one |
| Encoding.FatalDecodeRejects | crates/worker/src/encoding.js:81-81 | a fatal decode fails exactly on bytes that are not UTF-8 |
| Json.FromStrPrint | crates/worker/src/ops.rs:132-133 | reading a printed value gives that value, for every value with integer numbers and any strings |
| Json.EscapeAllSize | crates/worker/src/ops.rs:73-79 | JSON escaping costs between one and six bytes for every UTF-8 byte |
| Json.EscapeForms | crates/worker/src/ops.rs:73-79 | which characters are escaped, and by two or by six characters |
| Json.ReadsAround | crates/worker/src/ops.rs:132-133 | a printed value is read between any space and refused when anything else follows |
| HostState.EmitAcceptsExactlyLegal | crates/worker/src/ops.rs:140-172 | on a log within budget an event is accepted exactly when the longer log is within budget |
| HostState.HostState.EmitEvent | crates/worker/src/ops.rs:140-172 | cached or not, the decision is the one computed from the whole log; a refusal changes nothing a reader sees; the cache stays equal to the sum |
| HostState.HostState.OutputBytes | crates/worker/src/ops.rs:177-194 | returns the sum of the log and leaves the cache filled with it; fails exactly when the sum does not fit a usize, and then leaves the cache as it was |
| HostState.HostState.ValidateRestoredEvents | crates/worker/src/ops.rs:197-230 | succeeds exactly on a log within the installed budget, with its byte total |
| HostState.HostState.RestoreCheckpoint | crates/worker/src/ops.rs:123-138 | yields a fresh state with a full cache exactly when the text is short enough, parses, and is within the current limits, which it keeps |
| HostState.EmbeddedIsolate.RestoreCheckpoint | crates/worker/src/runtime.rs:409-421 | installs the restored state, or leaves the live one as it was |
| HostState.EmbeddedIsolate.PerformAll | crates/worker/src/runtime.rs:398-421 | every run of the live isolate is a run of the abstract log |
| HostState.ParsePrinted | crates/worker/src/ops.rs:304-310 | the checkpoint reader undoes the printer on every state, legal or not |
| HostState.CheckpointSize | crates/worker/src/ops.rs:78-94 | the exact byte length of a checkpoint, from its counter digits, escaped bytes and event count |
| HostState.BoundAdmitsLegal | crates/worker/src/ops.rs:71-94 | every state legal under the default policy prints within the compile-time bound |
| HostState.BoundAttained | crates/worker/src/ops.rs:78-94 | some such state prints to exactly the bound |
| HostState.RestoreOwnCheckpoint | crates/worker/src/ops.rs:123-138 | a legal state under any limits comes back from its checkpoint exactly when the text is within the bound |
| HostState.CheckpointRestoreIdentity | crates/worker/src/ops.rs:123-138 | checkpoint then restore is the identity whenever the installed limits are no looser than the defaults |
| HostState.LooserLimitsRefuseOwnCheckpoint | crates/worker/src/ops.rs:123-130 | under looser limits a legal state exists whose own checkpoint is refused |
| HostState.RunsStayWithinBudget | crates/worker/src/ops.rs:123-230 | over every run of model calls, emits and restores of arbitrary texts the log stays within limits that never change |
| HostState.RestoresExactly | crates/worker/src/ops.rs:123-138 | a restore succeeds exactly with a text of at most 6,318,127 bytes that reads as an object naming counter and events once each (or an array of the two), the counter an unsigned numeral below 2^64, each event an object naming topic and payload once with string values (or an array of two strings), within the installed limits; it restores those, in order |
| HostState.StepsDoExactly | crates/worker/src/ops.rs:123-172 | at any point of any run an emit appends its event exactly when the longer log is within budget and otherwise changes nothing; a restore replaces counter and log by what a text within bound and budget says or changes nothing; a model call counts by one |
| HostState.CheckpointSurvivesRuns | crates/worker/src/runtime.rs:398-421 | under any limits, a checkpoint taken at any point of any run brings that very state back after any further run when its text is within the bound, and otherwise changes nothing; limits no looser than the defaults keep it within |
| Tenancy.ParseShownUuid | crates/persistence/src/idempotency.rs:222-247 | a UUID text parses to its UUID |
| Tenancy.ParseUuidExactly | crates/persistence/src/idempotency.rs:222-247 | a text parses to a UUID exactly when it is that UUID's 32 digits, bare, hyphenated or braced |
| Tenancy.ParseStorageKey | crates/persistence/src/idempotency.rs:222-247 | the scope parser inverts the storage key of every scope |
| Tenancy.StorageKeyInjective | crates/domain/src/projects/tenancy.rs:129-134 | different scopes have different storage keys |
| Idempotency.MemoryIdempotencyStore.BeginRequest | crates/api/src/idempotency.rs:65-112 | blank keys and hashes are refused; otherwise the decision and the record written follow the state of the slot |
| Idempotency.MemoryIdempotencyStore.CompleteRequest | crates/api/src/idempotency.rs:114-140 | completes its own reservation, accepts a completed one, refuses any other |
| Idempotency.ReplayFidelity | crates/api/src/idempotency.rs:278-301 | a replay has the live body and, for a status from 100 to 999, the live status, else 500; it is the live response exactly when, besides, the content type is absent, or visible ASCII and not empty |
| Idempotency.EmptyContentTypeIsLost | crates/api/src/idempotency.rs:295-299 | a live response with an empty content type is replayed without one |
| Idempotency.ForeignContentTypeIsLost | crates/api/src/idempotency.rs:281-285 | so is one whose content type holds a byte above 0x7F |
| Idempotency.RunKeepsInv | crates/api/src/idempotency.rs:164-209 | what ties records, clients and executions together under every interleaving of any number of clients, with clients dropped at any point |
| Idempotency.AtMostOneExecution | crates/api/src/idempotency.rs:164-209 | at most one handler execution ever starts for a scope and key |
| Idempotency.ReplayIsTheOneExecution | crates/api/src/idempotency.rs:193-209 | a replay carries the status, content type and body stored for the one execution of its slot, whose body had the same hash |
| Idempotency.AnswersAgree | crates/api/src/idempotency.rs:193-209 | clients answered from one slot, live or by replay, got the same stored response and sent bodies of the same hash |
| Idempotency.ReturnedClientsComplete | crates/api/src/idempotency.rs:235-276 | a client whose handler returned finds its own reservation whatever the others did, and completes it on the normal and the over-limit path |
| Idempotency.CompletedForever | crates/api/src/idempotency.rs:114-140 | a completed record never changes |
| PgIdempotency.PgIdempotencyStore.BeginRequest | crates/persistence/src/idempotency.rs:32-143 | one begin transaction on the table |
| PgIdempotency.PgIdempotencyStore.CompleteRequest | crates/persistence/src/idempotency.rs:145-219 | one complete transaction on the table |
| PgIdempotency.BeginRefines | crates/persistence/src/idempotency.rs:32-143 | a begin answers as the in-memory store, and the states still match, exactly unless key and hash are not blank and the index entry is taken by the other spelling of a missing project |
| PgIdempotency.NilProjectIsRefused | migrations/0001_initial_schema.sql:68-99 | after a tenant-wide begin, one for the nil project is an internal error where the in-memory store gives a new reservation |
| PgIdempotency.BeginRefinesWithoutNil | crates/persistence/src/idempotency.rs:48-79 | tables and scopes that never name the nil project always agree on begin |
| PgIdempotency.CompleteRefines | crates/persistence/src/idempotency.rs:145-219 | a complete answers as the in-memory store, and the states still match, exactly unless the token's reservation is open and the status does not fit the column |
| PgIdempotency.RunsRefine | crates/persistence/src/idempotency.rs:32-219 | from empty, no sequence of begin and complete calls tells the two stores apart |
| PgMiddleware.PgRunKeepsInv | crates/persistence/src/idempotency.rs:32-219 | under every interleaving of clients around the table, colliding scopes and oversized statuses included, the table stands for records with which the clients keep the invariant |
| PgMiddleware.PgAtMostOneExecution | crates/persistence/src/idempotency.rs:8-10 | with the PostgreSQL store, too, at most one handler execution ever starts for a scope and key |
| PgMiddleware.PgReplayIsTheOneExecution | crates/persistence/src/idempotency.rs:109-133 | a replay from a row carries the response of the one execution of its slot, whose body had the same hash |
| PgMiddleware.PgReturnedClientsComplete | crates/persistence/src/idempotency.rs:145-219 | a client whose handler returned finds its own row, and completes it when the status fits the column; otherwise it is refused, the table stays as it was and the row stays reserved |
| PgMiddleware.PgCompletedForever | crates/persistence/src/idempotency.rs:186-190 | a completed row never changes |
| MiddlewareAnswers.AdmitsExactly | crates/api/src/idempotency.rs:169-193 | exactly the commands with a scope, a visible-ASCII key header that is not blank and a body of at most 1,048,576 bytes are let through, each to its own scope and to the header's text without the space around it |
| MiddlewareAnswers.RefusesExactly | crates/api/src/idempotency.rs:169-190 | every other request is passed through, refused as invalid or refused as too large, each exactly for its own reason |
| MiddlewareAnswers.EnterAnswers | crates/api/src/idempotency.rs:193-205 | at any point of any run a client that is let through is answered by its own slot: a completed record of its hash replays exactly the stored response, another hash or an open reservation is a conflict, a free slot is reserved for it |
| MiddlewareAnswers.EnterRejects | crates/api/src/idempotency.rs:169-190 | a client that is not let through is told why, and the store is not touched |
| MiddlewareAnswers.HandlerResponseIsReceived | crates/api/src/idempotency.rs:235-276 | a handler response of at most 1,048,576 bytes is what its client receives and what is stored; a longer one is replaced by the error |
| MiddlewareAnswers.RetryIsReplayed | crates/api/src/idempotency.rs:193-209 | whatever happens in between, a later client with the same scope, key and body hash is replayed the stored form of the response the first one received |
| MiddlewareAnswers.PgEnterAnswers | crates/persistence/src/idempotency.rs:32-143 | in PostgreSQL the row of the client's own scope and key decides by its hash and state, a free entry is reserved, and one taken by the other spelling of a missing project is an internal error |
| MiddlewareAnswers.PgHandlerResponseIsReceived | crates/persistence/src/idempotency.rs:145-219 | there, too, a handler response within the limit is what its client receives and what its row holds |
| DataForSeo.EscapeIsOnePass | crates/provider/src/dataforseo.rs:64-66 | the two sequential replacements escape each character once, in place |
| DataForSeo.UnescapeEscape | crates/provider/src/dataforseo.rs:97-102 | the sequential unescape undoes the escape of every string |
| DataForSeo.PercentDecodeEscape | crates/provider/src/dataforseo.rs:64-66 | so does a one-pass percent-decoder over the UTF-8 bytes, whether or not it reads a plus sign as a space |
| DataForSeo.AcceptsExactlyCanonical | crates/provider/src/dataforseo.rs:92-118 | a JSON value decodes to a request exactly when it is that request's canonical body |
| DataForSeo.FromBytesExactlyCanonical | crates/provider/src/dataforseo.rs:86-124 | bytes are accepted exactly when they are within the limit and read as the canonical body of some request |
| DataForSeo.BodySize | crates/provider/src/dataforseo.rs:47-73 | the field limits keep every printed body under 3,492 bytes |
| DataForSeo.RefusesExactly | crates/provider/src/dataforseo.rs:47-63 | the refused requests are exactly those with a blank or too long keyword, no location, a language that is not 1 to 16 letters and hyphens, an empty or too long tag, or a control in keyword or tag |
| DataForSeo.PreparedSays | crates/provider/src/dataforseo.rs:64-73 | the prepared bytes read as one object with exactly the nine members: a keyword that percent-decodes to the request's, the location's numeral, language and tag as given, "desktop", "windows", 10, 1 and 1 |
| DataForSeo.PrepareExactlyValid | crates/provider/src/dataforseo.rs:40-73 | preparing succeeds exactly for the requests that have a body, and freezes those printed bytes and the tag |
| ToolCalls.ToolCallExactly | crates/provider/src/lib.rs:399-419 | the checks on a call accept exactly a function call with an id that is not blank, a name of 1 to 64 letters, digits, underscores and hyphens, and arguments that read as an object |
| ToolCalls.NormalizesExactly | crates/provider/src/lib.rs:655-699 | a message normalizes to a text and calls exactly when its call values, absent, null or a non-empty list of valid calls with distinct ids, are those, its content is that text or, beside calls, missing, and without calls the text is not blank and the response did not stop for calls |
| ToolCalls.UsualCallsNormalize | crates/provider/src/lib.rs:655-689 | valid calls in their usual form come back exactly, with the text beside them or with the empty text when there is none |
| Transcript.Validate | crates/provider/src/lib.rs:254-373 | accepts exactly the requests that meet the declarative conditions; its two pairing refusals imply that the calls are not paired |
| Transcript.ValidateMessage | crates/provider/src/lib.rs:267-331 | one turn of the loop advances the pending set as the pass over calls and results does |
| Transcript.PassPerId | crates/provider/src/lib.rs:266-336 | the pass over all ids is, for each id, the pass over its own occurrences |
| Transcript.PassIsPairing | crates/provider/src/lib.rs:266-336 | the single pass accepts and ends with nothing pending exactly when each id's occurrences alternate call, result and end on a result |
| Transcript.ContinuedConversationIsValid | crates/provider/src/lib.rs:655-680 | a valid request continued with the calls of a normalized answer and one result per call, in any order, is valid |
| Redaction.TokensJoin | crates/provider/src/lib.rs:482-502 | splitting on white space undoes joining words with spaces |
| Redaction.SecretExactly | crates/provider/src/lib.rs:485-494 | a token is taken for a secret exactly when it is, between quoting characters, a text of at least 24 ASCII letters, digits and characters of -_+. only |
| Redaction.RedactedTokens | crates/provider/src/lib.rs:482-502 | each such token becomes `***`, every other stays in place, and none that would be redacted again is left |
| Redaction.RedactedForm | crates/provider/src/lib.rs:500-501 | the redacted message is its tokens with single spaces between them |
| Redaction.TokensExactly | crates/provider/src/lib.rs:484-484 | the tokens of a message are its words, whatever white space stands between and around |
| Redaction.RedactIdempotent | crates/provider/src/lib.rs:482-502 | redacting twice is redacting once |
| Keyset.NextPage | crates/app/src/measurement_weekly.rs:230-248 | a query beyond the last row read continues the unpaged scan exactly, though rows already read may have left the table |
| Keyset.ReachedUpTo | crates/app/src/measurement_weekly.rs:144-150 | a failing page query costs the rows from its page on and none before |
| WeeklyScan.ScanWith | crates/app/src/measurement_weekly.rs:118-178 | the paged tick, with cursors and failing calls, leaves the database as one ordered unpaged pass would |
| WeeklyScan.DiscoverAll | crates/app/src/measurement_weekly.rs:118-141 | the project loop ends and visits the projects in order, each once, past failing ones |
| WeeklyScan.SaveAllDue | crates/app/src/measurement_weekly.rs:143-177 | the due loop ends and tries the due weeks in order, each once, while completed ones leave the table |
| WeeklyScan.WeeklyReportStore.Save | crates/app/src/measurement_weekly.rs:250-265 | a save answers with the report the week has, or a new one; a failure may or may not have stored it |
| WeeklyScan.WeeklyReportStore.Complete | crates/app/src/measurement_weekly.rs:267-285 | a completion is logged, and marks the week when it is applied |
| WeeklyScan.VisitAllKeeps | crates/app/src/measurement_weekly.rs:68-80 | discovery keeps the schedules there are, adds only weeks a visited project froze, and has each of those |
| WeeklyScan.DueExactly | crates/app/src/measurement_weekly.rs:230-248 | the due rows are all uncompleted rows due at the tick's clock, in (due_at, id) order, no id twice |
| WeeklyScan.TickEffect | crates/app/src/measurement_weekly.rs:143-172 | a tick saves exactly the rows it tries, asks completion exactly of those whose save answered, with their own scope and saved report, stores reports only where a save was applied, and marks exactly those whose completion was applied |
| WeeklyScan.TickCovers | crates/app/src/measurement_weekly.rs:118-178 | with no failing page query every project is visited and every due week tried, those frozen by this tick included |
| WeeklyScan.RetriesExactlyUnfinished | crates/app/src/measurement_weekly.rs:165-170 | after a tick exactly the due weeks that did not finish are due, in the same order |
| WeeklyScan.QuietTickClears | crates/app/src/measurement_weekly.rs:143-178 | a tick without failures leaves nothing due |
| WeeklyScan.TicksKeep | crates/app/src/measurement_weekly.rs:165-170 | over any run of ticks a completed week is never saved or completed again and reports never change |
| WeeklyScan.SameReportAlways | crates/app/src/measurement_weekly.rs:351-376 | all completions ever asked for a week, in whatever ticks, carry the same report |
| ContentScan.MaterializePage | crates/app/src/content_request_dispatch.rs:38-61 | attempts the whole page in order whatever fails, and returns the last id of a full page only |
| ContentScan.ContentDispatch.Poll | crates/app/src/content_request_dispatch.rs:12-36 | one turn of the endless loop: advance, reset, or keep the cursor on an error |
| ContentScan.ContentDispatch.PollAll | crates/app/src/content_request_dispatch.rs:12-36 | any number of turns is that many steps of the scanner |
| ContentScan.CursorAdvances | crates/app/src/content_request_dispatch.rs:17-31 | the cursor strictly increases until a pass ends, which resets it |
| ContentScan.TurnConsumesPage | crates/app/src/content_request_dispatch.rs:38-61 | undisturbed, a turn attempts the next hundred requests of one unpaged scan and leaves exactly the others; a failed query changes nothing |
| ContentScan.FullPass | crates/app/src/content_request_dispatch.rs:12-61 | with failing rows and queries, and others accepting and linking meanwhile, a pass tries each request at most once, in order, under its own scope, and tries every request unlinked at its start that nobody else links |
| ContentScan.QuietTurnsArePass | crates/app/src/content_request_dispatch.rs:12-61 | passes exist: undisturbed turns from the start are one exactly when there is one for every hundred unlinked requests and one more |
| ContentScan.QuietPassIsUnpaged | crates/app/src/content_request_dispatch.rs:12-61 | undisturbed, a pass makes exactly the attempts of one unpaged ordered scan |
| PartnerSync.PartnerRepository.AdvanceOne | crates/app/src/partner_sync_dispatch.rs:133-165 | takes one step of the operation and moves what is left of it behind the others |
| PartnerSync.PartnerRepository.AdvanceBatch | crates/app/src/partner_sync_dispatch.rs:29-50 | advances each operation of the batch once, in order, whatever fails, and is true exactly when one of them had an item to commit |
| PartnerSync.PartnerRepository.Drain | crates/app/src/partner_sync_dispatch.rs:10-25 | the loop reaches a sleep, after batches that all made progress and one that did not |
| PartnerSync.AdvancedIs | crates/app/src/partner_sync_dispatch.rs:133-165 | within a batch the operations already advanced stand behind the others, in order |
| PartnerSync.RoundCalls | crates/app/src/partner_sync_dispatch.rs:29-50 | a batch calls each of the first hundred operations once, in order |
| PartnerSync.RoundCounts | crates/app/src/partner_sync_dispatch.rs:29-50 | progress strictly decreases the uncommitted items, no progress commits none, and items committed plus items left never change |
| PartnerSync.RoundsConserve | crates/app/src/partner_sync_dispatch.rs:10-25 | over any number of batches what an operation committed followed by what it owes never changes: its items are committed once, in its order |
| PartnerSync.WaitsAtMost | crates/app/src/partner_sync_dispatch.rs:14-17 | an operation at position j is advanced in the batch after j / 100 others, whatever the ones before it do |
| PartnerRest.DoneWithin | crates/app/src/partner_sync_dispatch.rs:14-17 | an operation of m steps that never defers has committed all its items, in order, after m batches for every hundred operations queued, whatever the others do |
| PartnerRest.Lockstep | crates/app/src/partner_sync_dispatch.rs:29-50 | up to a hundred operations go in lockstep: after n batches each has taken n steps, stopping at a deferral |
| PartnerRest.ProgressesAfter | crates/app/src/partner_sync_dispatch.rs:37-49 | of up to a hundred operations, batch n reports progress exactly when some operation has an item as its n-th step with no deferral before it |
| PartnerRest.SleepComes | crates/app/src/partner_sync_dispatch.rs:10-25 | every run comes to a first sleep |
| PartnerRest.FirstSleepClears | crates/app/src/partner_sync_dispatch.rs:10-25 | for every queue, the first sleep leaves nothing to commit exactly when the stored queue clears, or, with a failing scan, had nothing; then every operation's log is complete and in order |
| PartnerRest.ErrorHidesWork | crates/app/src/partner_sync_dispatch.rs:42-46 | one operation whose first call fails makes the runner sleep on its second item |
| PartnerRest.HundredHideWork | crates/app/src/partner_sync_dispatch.rs:37-49 | a hundred operations that defer, are complete or fail make it sleep on the item behind them |
| PartnerRest.SecondPassHidesWork | crates/app/src/partner_sync_dispatch.rs:37-49 | two hundred operations that commit, are complete for one call and commit again make it sleep after a whole pass, with items left |
| Grant.Reference | crates/app/src/production_runtime.rs:133-159 | feeds the fields one by one and always yields the reference text of the preimage's hash |
| Grant.FieldsInOrder | crates/app/src/production_runtime.rs:135-150 | which text of each field is hashed, and in which order |
| Grant.BigEndianReads | crates/app/src/production_runtime.rs:151-151 | a length prefix reads as the length, its first byte the most significant |
| Grant.PreimageInjective | crates/app/src/production_runtime.rs:150-153 | the length-prefixed encoding determines its fields, for all strings |
| Grant.PreimageDeterminesGrant | crates/app/src/production_runtime.rs:133-153 | two grants with the same preimage agree in every field but the route |
| Grant.RouteIdOfReference | crates/app/src/production_runtime.rs:161-172 | the route parsed out of a grant's reference is the grant's own |
| Grant.RouteIdExactly | crates/app/src/production_runtime.rs:161-172 | a route is read exactly from the literal prefix, a UUID text and 64 hexadecimal digits, with colons between |
| Grant.SecretRefExactly | crates/provider/src/lib.rs:60-69 | a secret reference is any text that is not blank and has at most 256 bytes |
| Grant.ReferenceFits | crates/app/src/production_runtime.rs:154-158 | every reference is 120 bytes and makes a secret reference |
| Grant.ReferenceDeterminesGrant | crates/app/src/production_runtime.rs:131-159 | where the hash does not collide on the two preimages, grants with the same reference are the same |

## Left out

- HTTP, SQL text, V8 and deno_core, DNS, TLS and tokio scheduling. A SQL transaction is one
  atomic step; database errors, foreign keys and NUL characters in texts do not occur in it.
- `TextDecoder` without `fatal`, whose replacement of bad bytes is deno_core's, and its label
  parsing; `encode` of a whole string, which is deno_core's.
- Json.ReadsAround: covers texts around printed values. What the reader makes of other JSON texts
  (fractions, exponents, upper-case and paired escapes) is its definition after RFC 8259.
- serde_json's recursion limit of 128. Numbers are kept as their lexemes. Object member order is
  not modelled where the code compares maps, which ignore it.
- HostState.HostState.RestoreCheckpoint: serde_json skips members a checkpoint does not name
  without decoding their strings; here a lone surrogate escape in one refuses the text.
- Transcript.Validate: serde_json refuses tool arguments with a number beyond the range of an f64
  (`1e999`); here any well-formed number passes.
- Error message texts; errors are told apart by kind.
- `model_calls` wraps at 2^64, as a release build does. A debug build panics there.
- Response headers other than the content type, which the code does not store, and handlers that
  never return: such a record stays in flight.
- Stored hashes beside the prepared SERP bytes: `request_sha256` is a hash of those bytes.
- The rest of `normalize_response`: usage, citations and the model name. Only its text and tool
  calls reach the next request.
- Clock values: `generated_at`, `completed_at` and `next_attempt_at` are not stored. A tick has
  one `now`; the partner queue has its order.
- How a project's next week is computed: a discovery yields any schedule, nothing, or a refusal.
  The check of `complete_measurement_week` that a report fits the week is one of the ways a
  completion can fail.
- `materialization_next_retry_at`, which hides deferred requests from the content scan for a time.
- Other actors in the middle of a page: in `ContentScan` they act between turns, in `WeeklyScan`
  and `PartnerSync` between ticks and batches.
- PartnerSync.PartnerRepository.AdvanceOne: follows the scheduler that the dispatcher's own tests define. The
  PostgreSQL one orders operations by `next_attempt_at`, which is not part of this model.
- Grant.ReferenceDeterminesGrant: assumes that SHA-256 does not collide on the two preimages.
- Routing, configuration, role checks, the gateway retry loop, watchdogs, the lease repositories,
  the web application and the report checker: mostly I/O or one-branch checks, which would add
  only easy members.

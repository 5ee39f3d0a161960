# Abenlux, verified

Abenlux captures the model calls of developers at the edge, forwards a content-free record of each to a central
collector, and derives spend, reuse savings and introductions from them. This project models, in Dafny 4.11, the
parts of it that keep state over long runs and must agree with something simpler, and proves what they promise for
all inputs, all runs and all interleavings. `dafny verify dfyconfig.toml` checks everything.

Code that changes things step by step is imperative here too: a class or a loop, proved against a function of its
inputs or its old state. The results are lemmas about those functions and about whole runs.

| files | subject |
|---|---|
| `Spool`, `Collector`, `Delivery`, `DeliveryLimits`, `DroppedCounter`, `Replies`, `SinkRun` | the edge's bounded spool, the collector's ingest loop, and the protocol between them with any number of concurrent flushers |
| `ExactCache`, `CacheKeys` | the exact-match response caches of the gateway and the forward proxy |
| `Chunked`, `ChunkWriter`, `HttpReader` | chunked bodies (section 7.1 of RFC 9112) and reading a request from arbitrary fragments |
| `Sse`, `Streams`, `Adapters`, `Anthropic`, `ChatCompletions`, `Responses`, `Gemini`, `ParserSteps`, `BuildEvent` | server-sent events (section 9.2 of the WHATWG HTML Living Standard), the provider parsers, and the estimate-and-flag rule |
| `DedupKey`, `CostToSolve`, `Ledger`, `CreditRule`, `Yield`, `YieldScopes` | the reuse-yield ledger |
| `Store`, `StoreColumns` | the derived table: upsert, tenant scoping, additive aggregates |
| `Broker`, `Matches`, `Reveal` | matching behind isolation walls, and double-blind consent |
| `Trim`, `SlimTools`, `Breakpoints`, `Compression` | three compression strategies and the accounting over any of them |
| `Learner`, `Percentile` | self-learned vocabulary, cohort percentiles |
| `Prelude` | options, filters, splitting and joining, exact sums, rounding |

Money, shares and similarities are exact numbers. What a lock protects is one atomic step. Clocks, posted replies,
received fragments, similarity scores and JSON-decoded values are parameters.

## Main results

Delivery and caching
- `Delivery.SpoolConservation`, `Delivery.ExactlyTheInsertedRows`: conservation in every interleaving, and exact end-to-end contents.
- `Replies.RefusedIffClientError`, `Replies.TransientFailuresLoseNothing`: which answers cost a record, and that without a drop no other failure does.
- `DroppedCounter.DroppedCoversTheLossIff`, `DroppedCounter.DroppedIsTheLossIff`, `DeliveryLimits.OrderIffOneFlusher`: the exact configurations in which the counter and the order can be trusted.
- `ExactCache.HitIsLastStored`, `ExactCache.MissIsExcused`, `CacheKeys.HitServesOwnRepeat`: the caches refine an unbounded map with expiry.

Wire formats
- `Chunked.DechunkedPrefix`, `ChunkWriter.ParseSizeIff`, `ChunkWriter.SentIsReceived`, `HttpReader.FragmentationIndependence`, `HttpReader.LengthIndependence`: what is read of every prefix, what counts as a size, the round trip with a sender written apart, and exactly when every fragmentation reads the same.
- `Sse.RoundTripIff`, `Anthropic.AnthropicStreamEqualsBody`, `ChatCompletions.ChatStreamEqualsBodyIff`, `Responses.ResponsesStreamEqualsBodyIff`, `Gemini.GeminiStreamEqualsBody`, `Gemini.StreamTextEqualsBodyTextIff`: stream equals body.
- `BuildEvent.TruncatedStreamIsHonest`: streams cut at any character, for every provider.

Ledger and store
- `Ledger.BookingIsAJoin`, `Ledger.OrderFreeIffKeysAgree`, `DedupKey.RecoversIffClean`, `DedupKey.PairReadsIff`, `Yield.CreditIsParticipantsLessOne`, `Yield.LaterBookingsNeverLowerTheTotal`, `Yield.NeverLowersIff`: booking, keys, credit and monotonicity.
- `CostToSolve.TrimmedMean`, `CostToSolve.RunawayBound`, `CostToSolve.BreakdownIsTight`: what the estimate is, and its breakdown point.
- `YieldScopes.TenantsDoNotInterfere`, `YieldScopes.TenantsAddUp`: a tenant's savings are its own, and all of them are the total.
- `Store.TenantConservation`, `Store.RollupConservation`, `Store.ClaimMovesExactlyTheOrphans`, `StoreColumns.TenantsSeeTheirOwnRows`, `StoreColumns.OneCostPerDeveloper`: nothing is lost, counted twice or shown to another tenant.

Collaboration and analytics
- `Broker.ScanOfOwnPartition`, `Broker.MemoryIsLatestPerActor`: the walls are a partition, and what the broker remembers after any run.
- `Reveal.RevealNeedsBothConsents`, `Reveal.RowsComeInPairs`, `Reveal.IngestWritesBothSides`: double-blind safety over whole runs, and what an ingest writes.
- `Learner.WorkTypeLearner.Teach`, `Learner.OrderDoesNotMatter`: exactness of the vocabulary.
- `Trim.MaximalRunsAreUnique`, `Trim.TrimKeepsTheLog`, `Compression.SavedIsHonest`, `Compression.NeverUnderstatedIff`: the fold, read back, and the accounting.
- `Percentile.PercentilesConserve`: percentiles sum to n / 2.

Where the code does not do what is said about it, the code is modelled, the input that shows it is a lemma, and so is
the exact condition under which it does:

- `dropped` is the sink's measure of loss, but it counts evictions. A batch the endpoint refuses for good is lost too,
  with a line on stderr and without being counted, and `flush` posts the whole buffer, so after an outage one flush can
  lose a whole backlog (`DeliveryLimits.OversizedFlushLosesTheBacklog`). The other way round, a record that was stored
  while its acknowledgement was lost can be evicted later and counted (`DroppedCounter.StoredAndDropped`). Loss here is
  an inserted record the collector's checks would store and whose id has no row once the edge is drained; items refused
  by those checks are never counted. Against a collector that refuses whole batches for good only when they are too
  large, and that would store anything at all, the counter is at least the loss in every run if and only if `max_spool`
  is within the collector's batch limit (`DroppedCounter.DroppedCoversTheLossIff`); the defaults, 10000 and 1000, are
  not. It equals the loss in every run only when there is no spool and nothing is refused as an item
  (`DroppedCounter.DroppedIsTheLossIff`).
- "Put it back at the front, order preserved" holds in every run if and only if at most one flush is under way at a
  time, or the spool holds at most one record (`DeliveryLimits.OrderIffOneFlusher`).
- The end marker of a chunked body can occur inside it, even across a size line, and a large head can pass the limit
  with the last fragment; `HttpReader.FragmentationIndependence` gives the exact condition. A body with a length is read
  the same whatever the fragments if and only if nothing follows it (`HttpReader.LengthIndependence`).
- README.md:275-276 partitions developers by client and residency; the walls also separate orgs, and the code scans
  and filters. `Broker.ScanOfOwnPartition` shows that a partition by all three gives the same answer.
- src/abenlux/collaborate/broker.py:98-100 says topics are compared only when neither side has a validated objective id;
  the code compares them when either side has none (`Broker.TopicStandsInForAMissingId`, `Broker.TwoBars`).
- A bound on the broker's memory is kept if and only if it is not zero (`Broker.BoundHoldsIffPositive`).
- For a tenant, the people behind a key are read back for all names without `|` and `:` if and only if the tenant has
  neither `::` inside nor a trailing colon (`DedupKey.RecoversIffClean`). For such a tenant and any two names they are
  read back if and only if neither name has a `|` and the joined pair has neither `::` inside nor a trailing colon, or
  both names are a single colon (`DedupKey.PairReadsIff`).
- The rows the report reads do not depend on the order of the bookings if and only if bookings that share a key agree
  (`Ledger.OrderFreeIffKeysAgree`).
- Later bookings never lower the total, whatever the names are, unless some work that two people can be credited for is
  backed by enough developers at a negative estimate (`Yield.NeverLowersIff`).
- The distinct-actor column adds up over tenants if and only if no developer has rows in two (`Store.ActorsAddUpIff`).
- A chat completion with several choices is joined when streamed, while the body parser reads the first
  (`ChatCompletions.ChatStreamEqualsBodyIff`); an empty delta hides the full text of a Responses completion
  (`Responses.ResponsesStreamEqualsBodyIff`); several Gemini candidates come out in the body's order if and only if
  none speaks after a later one (`Gemini.StreamTextEqualsBodyTextIff`).
- The care for missing counts is promised for truncated streams and kept for all streams. Whole bodies get none: text
  is recorded with zero tokens and no flag exactly for them (`BuildEvent.SilentZeroIff`).
- The saving can be understated by a strategy list if and only if it names a strategy twice
  (`Compression.NeverUnderstatedIff`).
- Cache markers are limited to four, but markers on tools are not counted (`Breakpoints.TotalWithinFourIff`). One pass
  of tool deduplication is enough if and only if not both arrays repeat a definition (`SlimTools.OnePassSufficesIff`).
- The trimming marker says "lines" but counts runs; it is right if and only if no omitted line was repeated
  (`Trim.MarkerCountsLinesIff`).

## Model

| member | source | states |
|---|---|---|
| Spool.HttpSink.DropOverflow | src/abenlux/sink.py:113-115 | exactly the newest `max_spool` records stay, and each one lost is counted once |
| Spool.HttpSink.Append | src/abenlux/sink.py:110-118 | the record joins the end, at most one old record is dropped and counted, and a flush is due by size or by age |
| Spool.HttpSink.Take | src/abenlux/sink.py:123-129 | the whole buffer leaves before the POST, and the flush clock restarts even when there is nothing to send |
| Spool.HttpSink.Settle | src/abenlux/sink.py:50-62 | a batch stays out only below 300 or on a client error other than 408 and 429; any other answer, or none, returns it to the front, oldest dropped and counted |
| Spool.HttpSink.Flush | src/abenlux/sink.py:120-140 | an undisturbed flush drops nothing; it empties the spool below 300 or on a client error other than 408 and 429, and otherwise leaves it as it was |
| Collector.CollectorService.Ingest | src/abenlux/api/server.py:247-280 | an oversized batch changes nothing and gets 413; otherwise every item is stored or refused on its own, and the two counts add up to the batch |
| Collector.MatchedCounts | src/abenlux/api/server.py:259-280 | the count is the number of items stored and matched |
| Collector.StoreAllLookup | src/abenlux/api/server.py:259-280 | what a batch leaves under an id is its last stored item for it, or the old row |
| Collector.RetryIsIdempotent | src/abenlux/store.py:515-523 | delivering a batch twice leaves the same table as once, whatever was there before |
| Delivery.SpoolConservation | src/abenlux/sink.py:110-140 | in every interleaving each inserted record is in exactly one of: buffer, flight, accepted, refused, evicted; `dropped` counts the evictions exactly; the buffer keeps its bound |
| Delivery.DeliveryIsSound | src/abenlux/sink.py:120-140 | in every run, lost acknowledgements, retries and posts stored late included, each row comes from an inserted record of its id, and everything counted as accepted is in the table |
| Delivery.DrainedAccountsForEverything | src/abenlux/sink.py:50-62 | once drained, a record without a row was evicted, permanently refused, or refused as an item |
| Delivery.ExactlyTheInsertedRows | src/abenlux/store.py:515-523 | drained with no drop and no permanent refusal, the table holds exactly the rows of the inserted records if and only if no two records write different rows under one id; the ids are exact in any case |
| Replies.RefusedIffClientError | src/abenlux/sink.py:50-62 | in every run records are refused for good if and only if some answer is a client error other than 408 and 429 |
| Replies.DeliveredIffSuccess | src/abenlux/sink.py:50-52 | and count as delivered if and only if some answer is below 300 |
| Replies.TransientFailuresLoseNothing | src/abenlux/sink.py:50-62 | with no such client error, every drained run without a drop has a row for each storable record, whatever else failed |
| SinkRun.Drive | src/abenlux/sink.py:110-140 | the spool's own methods, driven through any run of the protocol, produce the buffer and the counter the state machine says |
| DeliveryLimits.PendingInInsertionOrder | src/abenlux/sink.py:135-140 | if flushes never overlap, in flight followed by buffered is always in insertion order |
| DeliveryLimits.OverlapReorders | src/abenlux/sink.py:135-140 | two overlapping failed flushes can leave the buffer out of order |
| DeliveryLimits.OrderIffOneFlusher | src/abenlux/sink.py:120-140 | with at most n flushers the buffer is in insertion order in every run if and only if n is at most one or the spool holds at most one record |
| DeliveryLimits.OversizedFlushLosesTheBacklog | src/abenlux/sink.py:55-61 | a backlog built by an outage in which every due flush fails, once above the collector's limit, ends drained, with a zero counter and an empty table |
| DeliveryLimits.OutageBuildsBacklog | src/abenlux/sink.py:110-140 | an outage of any length within the spool's bound leaves every record in the buffer, in order, and nothing dropped |
| DeliveryLimits.BatchesWithinLimitIff | src/abenlux/sink.py:120-140 | every batch of every run is within the collector's limit if and only if the spool's bound is |
| DeliveryLimits.DroppedIsTheGivenUpIff | src/abenlux/sink.py:50-62 | the counter is the number of records the edge gave up, evicted or refused for good, in every run, against a collector refusing only what is too large, if and only if the spool's bound is within its limit |
| DroppedCounter.DroppedCoversTheLossIff | src/abenlux/sink.py:110-140 | in every drained run against a collector refusing only what is too large, the counter is at least the number of inserted, storable records whose id has no row, if and only if the spool's bound is within its limit or nothing is storable |
| DroppedCounter.LostUncounted | src/abenlux/sink.py:55-61 | above the limit a run exists that drains, loses storable records and counts none |
| DroppedCounter.StoredAndDropped | src/abenlux/sink.py:130-140 | for every spool within the limit a run exists that drains with one drop and every record in the table: its first acknowledgement was lost |
| DroppedCounter.DroppedIsTheLossIff | src/abenlux/sink.py:110-140 | the counter equals that loss in every such run if and only if the spool holds nothing and every item is storable |
| ExactCache.Cache.Get | src/abenlux/capture/gateway.py:110-120 | a hit moves the key to the end, an expired entry is removed, a miss changes nothing |
| ExactCache.Cache.EvictOldest | src/abenlux/capture/forward_proxy.py:67-68 | exactly the most recently touched keys stay, with their values |
| ExactCache.Cache.Put | src/abenlux/capture/gateway.py:123-129 | the entry is stored as the most recent one and the size bound is kept |
| ExactCache.HitIsLastStored | src/abenlux/capture/forward_proxy.py:50-59 | in any run with a forward clock a hit is the last value stored under that key, unexpired |
| ExactCache.MissIsExcused | src/abenlux/capture/forward_proxy.py:50-68 | a miss means never stored, expired, or at least the capacity of distinct other keys touched since; the size never exceeds the capacity |
| CacheKeys.KeyBytesInjective | src/abenlux/capture/gateway.py:96-107 | different requests hash different bytes when the fields have no NUL, whatever the body contains |
| CacheKeys.NulFreeIffUnambiguous | src/abenlux/capture/forward_proxy.py:44-47 | a request is the only NUL-free one behind its bytes if and only if it is NUL-free itself |
| CacheKeys.HitServesOwnRepeat | src/abenlux/capture/gateway.py:96-120 | a hit serves the last unexpired response to the same body from the same tenant, actor and route, never another's |
| Chunked.Dechunk | src/abenlux/capture/forward_proxy.py:232-248 | the loop computes the reading function for every byte string |
| Chunked.PlainSize | src/abenlux/capture/forward_proxy.py:240 | hex digits are read as their value by the full number syntax |
| ChunkWriter.ParseSizeIff | src/abenlux/capture/forward_proxy.py:240 | a text is read as a size if and only if it is blanks, a sign, a `0x`, hexadecimal digits with single underscores between them, and blanks, and then as the number they spell |
| ChunkWriter.SizeRoundTrip | src/abenlux/capture/forward_proxy.py:240 | every number written in base sixteen by repeated division, in either case and with any leading zeros, is read back |
| Chunked.DechunkedPrefix | src/abenlux/capture/forward_proxy.py:232-248 | de-chunking any prefix of an encoding yields exactly the data bytes that prefix holds, for any data, sizes, extensions and trailer |
| Chunked.DataInPrefix | src/abenlux/capture/forward_proxy.py:232-248 | those bytes are a prefix of the data, and all of it exactly when the last data byte is there |
| ChunkWriter.SentIsReceived | src/abenlux/capture/forward_proxy.py:232-248 | what a sender of its own writes, chunk by chunk, is read back whole: any data, pieces, size spellings, extensions and trailer |
| ChunkWriter.SentRequestIsRead | src/abenlux/capture/forward_proxy.py:189-229 | a request sent that way is read whole from every fragmentation if and only if its head has room and neither the end marker nor the body limit comes before the last data byte |
| HttpReader.ReadHttpRequest | src/abenlux/capture/forward_proxy.py:189-229 | the loops over fragments compute the reading function for every fragmentation and framing |
| HttpReader.ReadToMarker | src/abenlux/capture/forward_proxy.py:221-227 | reading stops at the end marker, at the end of the stream, or past the size limit |
| HttpReader.EveryFragmentationReadsAPrefix | src/abenlux/capture/forward_proxy.py:189-229 | however a chunked message is cut, it is given up for its size, or the head is exact and the body is a prefix of the data; with room for the head it is never given up |
| HttpReader.FragmentationIndependence | src/abenlux/capture/forward_proxy.py:189-229 | every fragmentation yields the whole request if and only if the head has room under its limit and neither the end marker nor the body limit comes before the last data byte |
| HttpReader.NoRoomFails | src/abenlux/capture/forward_proxy.py:192-198 | without room for the head some fragmentation is given up |
| HttpReader.SizeLineCanSpellTheMarker | src/abenlux/capture/forward_proxy.py:221 | the condition fails for plain data: a sixteen-byte chunk that starts with a line end |
| HttpReader.LengthReadIsExact | src/abenlux/capture/forward_proxy.py:211-217 | the loop reads a body no longer than its declared length whole, however it is cut |
| HttpReader.LengthIndependence | src/abenlux/capture/forward_proxy.py:189-217 | every fragmentation yields the head and exactly the declared bytes, or as many as came, if and only if the head has room and nothing follows the body |
| Sse.IterSseData | src/abenlux/capture/adapters.py:46-56 | the loop yields the payloads of the data lines in order |
| Sse.PayloadsAreClean | src/abenlux/capture/adapters.py:46-56 | no payload is empty, padded, spread over lines, or the end marker |
| Sse.DataLineIff | src/abenlux/capture/adapters.py:46-56 | a line yields p if and only if it is `data:` and p with white space before, between and after, for a p neither empty, padded nor the end marker |
| Sse.ServerLinesComeThrough | src/abenlux/capture/adapters.py:50-56 | for any mix of lines and of LF, CR and CRLF endings, exactly the data lines come through |
| Sse.RoundTripIff | src/abenlux/capture/adapters.py:46-56 | payloads sent as events come back if and only if each is non-empty, trimmed, on one line in the sense of `splitlines`, and not the end marker |
| Sse.TruncationKeepsAPrefix | src/abenlux/capture/adapters.py:46-56 | cutting a stream of whole JSON objects at any character costs its last events and changes none |
| Sse.SentEventsArrive | src/abenlux/capture/adapters.py:46-56 | events written as payloads that decode to them arrive, every one, in order |
| Anthropic.ParseAnthropicStream | src/abenlux/capture/adapters.py:91-121 | texts and stop reasons accumulate in order; each count and the model is the last one sent |
| ParserSteps.AnthropicStep | src/abenlux/capture/adapters.py:101-120 | what one more event changes, for each kind of event and each field |
| Anthropic.AnthropicIgnoresTheUnknown | src/abenlux/capture/adapters.py:101-120 | unknown events can be dropped from a stream |
| Anthropic.AnthropicStreamEqualsBody | src/abenlux/capture/adapters.py:91-136 | for every cut of the text, running counts on the way and unknown events between, the stream is reported like the body; the last output count holds, not a sum and not the one at the start |
| ChatCompletions.ParseChatStream | src/abenlux/capture/adapters.py:158-185 | all choice texts join in order, the last usage wins with cached tokens split off, and usage is reported present exactly when some chunk had it |
| ChatCompletions.ReadChoices | src/abenlux/capture/adapters.py:170-175 | the inner loop adds every choice's text and reason of one chunk |
| ParserSteps.ChatStep | src/abenlux/capture/adapters.py:168-185 | what one more chunk changes: a given model, and counts with the cached tokens taken out of the prompt |
| ParserSteps.ChatDelta | src/abenlux/capture/adapters.py:170-175 | what one more choice in a chunk appends |
| ChatCompletions.ChatStreamEqualsBodyIff | src/abenlux/capture/adapters.py:158-200 | for a body cut into chunks in any way, with its usage on the last chunk that has one, stream and body agree if and only if the choices after the first have neither text nor a finish reason |
| Responses.OutputText | src/abenlux/capture/adapters.py:238-243 | the text of all message items, in order |
| Responses.ParseResponsesStream | src/abenlux/capture/adapters.py:253-275 | the full text of a terminal event is used only when nothing came before it |
| ParserSteps.ResponsesStep | src/abenlux/capture/adapters.py:253-275 | what one more event changes; a terminal event brings its own text if and only if neither delta nor terminal event came before |
| ParserSteps.ItemsJoin | src/abenlux/capture/adapters.py:238-243 | a message item adds the text of its parts, any other item nothing |
| Responses.ParseResponsesBody | src/abenlux/capture/adapters.py:246-250 | the body's text, usage, status and model |
| Responses.ResponsesStreamEqualsBodyIff | src/abenlux/capture/adapters.py:246-275 | usage, status and model are the body's; the text is if and only if the deltas spell it or there is no delta |
| Responses.EmptyDeltaLosesTheText | src/abenlux/capture/adapters.py:264-274 | one empty delta before the completion loses the text |
| Responses.CutText | src/abenlux/capture/adapters.py:253-275 | a stream cut between events yields a prefix of the text, also when the text comes whole at the end |
| Gemini.CandidateTexts | src/abenlux/capture/adapters.py:317-326 | the texts and reasons of all candidates, in order |
| Gemini.ParseGeminiStream | src/abenlux/capture/adapters.py:329-346 | texts and reasons accumulate, the last usage and model win |
| Gemini.ParseGeminiBody | src/abenlux/capture/adapters.py:349-352 | the body's text, usage, reasons and model |
| Gemini.PartsInOrder | src/abenlux/capture/adapters.py:317-346 | a stream's text is that of all its parts in order, whatever chunks and candidates they came in |
| ParserSteps.GeminiStep | src/abenlux/capture/adapters.py:329-346 | what one more chunk changes in model and counts |
| ParserSteps.GeminiCandidate | src/abenlux/capture/adapters.py:317-326 | what one more candidate in a chunk appends |
| ParserSteps.BlocksJoin | src/abenlux/capture/adapters.py:317-326 | text parts add their text where they stand, others nothing |
| Adapters.PromptIsSplit | src/abenlux/capture/adapters.py:176-184 | the cached and the other tokens add up to the prompt if and only if no more was cached than sent |
| Gemini.GeminiStreamEqualsBody | src/abenlux/capture/adapters.py:329-352 | a body of one candidate, its text cut over any chunks, with running counts before, reason and usage on the chunk that ends it and silent chunks after, is reported like the body |
| Gemini.StreamTextEqualsBodyTextIff | src/abenlux/capture/adapters.py:317-352 | for a fixed order in which candidates speak, over however many chunks, streamed text and body text agree for all texts if and only if no candidate speaks after a later one |
| Gemini.OneChunkIsABody | src/abenlux/capture/adapters.py:329-352 | one chunk alone is read like a body |
| Gemini.TwoCandidatesInterleave | src/abenlux/capture/adapters.py:317-346 | two candidates that take turns are mixed in the stream and apart in the body |
| BuildEvent.EstimateTokens | src/abenlux/capture/adapters.py:62-67 | zero exactly for no text, and within half a token of a quarter of the length, but at least one |
| BuildEvent.InputEstimate | src/abenlux/capture/adapters.py:404-413 | without any prompt count a stream is recorded with a quarter of the characters of its messages and the breaks between them, to the nearest token |
| BuildEvent.ReportedCountsStand | src/abenlux/capture/adapters.py:404-413 | whole bodies' counts, and counts a stream did send, are recorded as they are |
| BuildEvent.FlaggedIff | src/abenlux/capture/adapters.py:386-413 | an event is flagged if and only if it is streamed and a chat stream sent no usage, or text came without an output count, or messages without any prompt count |
| BuildEvent.Build | src/abenlux/capture/adapters.py:358-422 | the branches amount to one rule: reported counts stand unless a stream left them at zero, and estimates are flagged |
| BuildEvent.StreamedCountsAreHonest | src/abenlux/capture/adapters.py:404-413 | a streamed event with text never shows zero output tokens, and any count that is not the provider's is flagged |
| BuildEvent.MissingCountIsFlagged | src/abenlux/capture/adapters.py:404-413 | for every provider, text without an output count is estimated at one or more and flagged |
| BuildEvent.SilentZeroIff | src/abenlux/capture/adapters.py:404-413 | text is recorded with zero output and no flag exactly when the reply is a whole body whose text comes with a zero output count |
| BuildEvent.BodyWithoutUsageIsSilent | src/abenlux/capture/adapters.py:394-413 | such as a chat body without usage |
| BuildEvent.StreamRecordedLikeBody | src/abenlux/capture/adapters.py:358-422 | a stream reporting what its body reports is recorded like it if and only if it is metered, its text comes with an output count, and its messages with an input or cached count |
| BuildEvent.CutStreamTextIsPrefix | src/abenlux/capture/adapters.py:91-346 | for every provider a stream cut between events yields a prefix of the text |
| BuildEvent.TruncatedStreamIsHonest | src/abenlux/capture/adapters.py:404-413 | from raw characters, for every provider: a stream cut anywhere records a prefix of the text, flagged and at least one when the cut came before any output count |
| DedupKey.KeyRoundTrip | src/abenlux/ledger.py:95-102 | splitting a key recovers exactly the booked pair, whatever the objective and the work type contain |
| DedupKey.SameKeyIffSameOpportunity | src/abenlux/ledger.py:95-102 | keys are equal if and only if tenant, unordered pair, objective and work type are |
| DedupKey.RecoversIffClean | src/abenlux/ledger.py:95-102 | for a tenant, the parse recovers the pair for all names without a bar and a colon, all objectives and work types, if and only if the tenant has no `::` and no trailing colon |
| DedupKey.PairReads | src/abenlux/ledger.py:175-178 | for such a tenant it recovers every pair without a bar that ends unambiguously in the key, colons in the names included |
| DedupKey.PairReadsIff | src/abenlux/ledger.py:175-178 | for such a tenant and any names, objective and work type, it recovers the pair if and only if neither name has a bar and the joined pair has no `::` and no trailing colon, or both names are a single colon |
| DedupKey.BarIsNeverRead | src/abenlux/ledger.py:178 | a name with a bar is read back from no key |
| DedupKey.UncleanTenantMisleads | src/abenlux/ledger.py:175-178 | a tenant with a separator makes the parse name developers nobody booked |
| CostToSolve.SortSorts | src/abenlux/ledger.py:59 | sorting gives an ascending permutation |
| CostToSolve.Core | src/abenlux/ledger.py:65-66 | the trimmed core of a non-empty list is never empty |
| CostToSolve.TrimmedMean | src/abenlux/ledger.py:53-67 | the estimate times the number of kept totals is the sum of the sorted non-zero totals without the t least and the t greatest, t being 0 below four and else a tenth, at least one |
| CostToSolve.OneTotalMoves | src/abenlux/ledger.py:53-67 | moving one total, in order, moves the estimate by its share of the kept ones, and not at all outside them |
| CostToSolve.WithinRange | src/abenlux/ledger.py:53-67 | for every number of totals the estimate lies between the least and the greatest |
| CostToSolve.PermutationInvariant | src/abenlux/ledger.py:53-67 | the order of the developers' totals does not matter |
| CostToSolve.Breakdown | src/abenlux/ledger.py:65-67 | with at most the trimmed number of totals outside any range, on whichever side, the estimate stays in it |
| CostToSolve.RunawayBound | src/abenlux/ledger.py:53-67 | replacing up to the trimmed number of n >= 4 totals by any amounts, zero included, keeps the estimate between bounds of the untouched ones |
| CostToSolve.BreakdownIsTight | src/abenlux/ledger.py:65-67 | one runaway more can push the estimate past any bound |
| Ledger.BookingIsAJoin | src/abenlux/ledger.py:135-152 | after any order and duplication a key is stored iff booked, and solved iff some booking of it was |
| Ledger.AtMostTwoChanges | src/abenlux/ledger.py:135-152 | a key changes tier at most twice over any run, and never if and only if it was not booked |
| Ledger.FirstBookingStays | src/abenlux/ledger.py:135-152 | the first booking of a key decides tenant, objective, work type and time for good, and the cluster until an upgrade |
| Ledger.UpgradeRelabels | src/abenlux/ledger.py:144-149 | an upgrade takes over the cluster of the booking that brings it and leaves the rest of the row and every other row |
| Ledger.RowsSayWhatWasBooked | src/abenlux/ledger.py:135-152 | while bookings that share a key agree, a row carries the tenant, objective and work type of every booking of its key |
| Ledger.ViewDependsOnTheSet | src/abenlux/ledger.py:154-158 | then what the report reads depends only on the set of bookings |
| Ledger.OrderFreeIffKeysAgree | src/abenlux/ledger.py:135-158 | what the report reads is free of order and repetition if and only if bookings that share a key agree |
| Ledger.WellNamedAgree | src/abenlux/ledger.py:100-102 | they do when the ids hold no separators |
| CreditRule.CoveredCredit | src/abenlux/ledger.py:165-169 | participants less one exceed the booked pairs by at most the number of connected parts less one |
| CreditRule.ConnectedCredit | src/abenlux/ledger.py:165-169 | participants less one are at most the booked pairs when those connect the participants |
| CreditRule.JoinedThroughAPair | src/abenlux/ledger.py:165-169 | a booked pair joins its two people to whomever either is joined to |
| CreditRule.CreditBelowPairs | src/abenlux/ledger.py:165-169 | n - 1 is at most C(n, 2), with equality only up to two participants |
| CreditRule.DisconnectedCreditExceedsPairs | src/abenlux/ledger.py:165-169 | the excess occurs: two separate pairs are credited three re-solves |
| Yield.Collect | src/abenlux/ledger.py:170-180 | in whatever order the rows come, each cluster has exactly the people of its keys, and is solved iff one of its rows is |
| Yield.Summarise | src/abenlux/ledger.py:182-201 | total, per-work-type amounts, credited and suppressed counts are the sums over the clusters, in whatever order |
| Yield.WhatAClusterIsWorth | src/abenlux/ledger.py:186-197 | nothing with fewer than k costs or fewer than two people, else one re-solve for each person but the first |
| Yield.LiveIsWorthHalf | src/abenlux/ledger.py:89-92 | a solved pattern is worth the cost to solve, live duplication half of it, within the rounding |
| Yield.EstimateGrows | src/abenlux/ledger.py:89-92 | while the solved estimate is not negative, neither is the live one, and it is no larger |
| Yield.WorkTypesAddUp | src/abenlux/ledger.py:198-208 | the total is the sum over the work types |
| Yield.ReportDependsOnTheSet | src/abenlux/ledger.py:160-201 | the clusters depend only on the set of bookings, while bookings that share a key agree |
| Yield.LaterBookingsNeverLowerTheTotal | src/abenlux/ledger.py:160-201 | for a fixed derived store later bookings never lower the total, whatever was booked before and whatever the names, while no cluster is credited at a negative estimate |
| Yield.MoreBookingsNeverLowerTheTotal | src/abenlux/ledger.py:160-201 | the same of bookings as sets, in any order, when those that share a key agree |
| Yield.NeverCredited | src/abenlux/ledger.py:175-194 | a tenant with `::` inside whose keys all read as fewer than two people is never credited |
| Yield.PositiveEstimate | src/abenlux/ledger.py:89-92 | without negative row costs no estimate is negative |
| Yield.NeverLowersIff | src/abenlux/ledger.py:160-201 | over all bookings, later bookings and scopes the total is never lowered if and only if no work backed by k developers has a negative estimate, for tenants whose keys can read as two people; the same condition decides it for bookings as sets |
| Yield.ActorsAreParticipants | src/abenlux/ledger.py:175-178 | while bookings that share a key agree and their names can be read back, the people parsed from the keys of a cluster are exactly the developers of its bookings, whatever the objectives contain |
| Yield.CreditIsParticipantsLessOne | src/abenlux/ledger.py:165-201 | under the same condition a cluster's credit is its distinct participants less one, at most C(n, 2), and at most its booked pairs when connected |
| Yield.LedgerStore.Book | src/abenlux/ledger.py:135-152 | the conditional upsert, and True exactly when the stored tier changed |
| Yield.Publish | src/abenlux/ledger.py:202-211 | amounts to the cent, and each work type once, the larger amount first |
| Yield.PublishedLinesAddUp | src/abenlux/ledger.py:202-211 | the published work types add up to the published total within half a cent each and half a cent |
| Yield.LedgerStore.Summary | src/abenlux/ledger.py:160-211 | the published figures are those of the sums over the clusters of the stored rows |
| YieldScopes.ReportReadsOwnRows | src/abenlux/ledger.py:105-110 | a named tenant's report has a cluster for each work its own rows are about, with exactly their people, solved if and only if one of them is |
| YieldScopes.ReportsAreParts | src/abenlux/ledger.py:154-180 | it is the part of the org-wide report under the tenant's name |
| YieldScopes.TenantsDoNotInterfere | src/abenlux/ledger.py:105-110 | ledgers that agree on a tenant's rows, those without a tenant counting for "default", give it the same report |
| YieldScopes.TenantsAddUp | src/abenlux/ledger.py:160-201 | amounts and credited re-solves, summed over the distinct tenants, are the org-wide ones |
| Store.TenantConservation | src/abenlux/store.py:151-160 | each additive column summed over the distinct tenants is the org-wide total, rows without a tenant included |
| Store.RollupConservation | src/abenlux/store.py:292-306 | each rollup, in any scope, sums to that scope's total |
| StoreColumns.TenantsSeeTheirOwnRows | src/abenlux/store.py:151-160 | totals, rollup lines, windows, distinct developers and spending of a tenant are those of a table holding its own rows alone |
| StoreColumns.InsertAdds | src/abenlux/store.py:515-523 | an insert adds the record's own figures to every column and takes away those of the row it replaces |
| StoreColumns.OneRowLines | src/abenlux/store.py:292-306 | a row shows on the line of its own label in each of the six rollups |
| Store.ActorsAddUpIff | src/abenlux/store.py:225-239 | the distinct-actor column summed over tenants is at least the org-wide one, and equal if and only if no developer has rows in two tenants |
| Store.ActorsAreNotAdditive | src/abenlux/store.py:225-239 | one developer with a row in each of two tenants counts twice |
| Store.ActorCostsAddUp | src/abenlux/store.py:373-392 | the per-developer costs of a piece of work add up to what was spent on it |
| StoreColumns.OneCostPerDeveloper | src/abenlux/store.py:373-392 | one cost for each developer who spent anything on that objective and work type in scope, no work type and "unknown" being the same, and it is what they spent |
| Store.CostListPositive | src/abenlux/store.py:373-392 | with non-negative row costs every listed cost is positive |
| Store.ClaimMovesExactlyTheOrphans | src/abenlux/store.py:464-478 | claiming moves exactly the rows without a tenant from "default" to the named tenant; nothing else and no org total changes |
| Store.DriftWindowsPartition | src/abenlux/analytics/drift.py:65-72 | the prior and the recent window partition the events, wherever the split is |
| Store.RedeliveryChangesNoTotal | src/abenlux/store.py:515-523 | storing a stored record again changes no aggregate |
| Store.DerivedStore.Insert | src/abenlux/store.py:515-523 | the row replaces any row of its event id, and ids stay unique |
| Store.DerivedStore.ClaimNullTenant | src/abenlux/store.py:464-478 | returns the number of rows moved, none for "default" |
| Broker.WallsArePartition | src/abenlux/collaborate/broker.py:74-85 | two signals pass the walls if and only if they share org, client and residency, no client and an empty one being the same |
| Broker.WallIsEquivalence | src/abenlux/collaborate/broker.py:74-85 | the wall check is reflexive, symmetric and transitive |
| Broker.ScanOfOwnPartition | src/abenlux/collaborate/broker.py:91-110 | the filtered scan gives the same matches in the same order as an unfiltered scan of the signal's own class |
| Broker.ScanIsExact | src/abenlux/collaborate/broker.py:93-110 | a match is reported if and only if some remembered signal meets its bar behind the same walls, and never with oneself |
| Broker.TwoBars | src/abenlux/collaborate/broker.py:91-106 | at or above the higher bar any other developer behind the same walls is reported; between the bars only solved work, or the same objective by id, or by topic when an id is missing |
| Broker.WhatIsReported | src/abenlux/collaborate/broker.py:107-110 | a report names both developers, the earlier signal's topic, the similarity to three digits, and a solved pattern if and only if one of the two is |
| Broker.MatchingIsSymmetric | src/abenlux/collaborate/broker.py:93-110 | whether two signals match, how strongly and in which mode does not depend on who came first |
| Broker.CollaborationBroker.Submit | src/abenlux/collaborate/broker.py:91-116 | the scan of what was remembered before, then the memory update |
| Broker.MemoryIsLatestPerActor | src/abenlux/collaborate/broker.py:111-115 | after any run the memory is the newest entries of the history reduced to each developer's latest signal |
| Broker.ZeroForgetsNothing | src/abenlux/collaborate/broker.py:114-115 | with a bound of zero the memory is everyone's latest signal |
| Broker.BoundHoldsIffPositive | src/abenlux/collaborate/broker.py:114-115 | the bound is kept for every history if and only if it is not zero |
| Matches.MatchStore.Record | src/abenlux/developer/matches.py:63-79 | one row per owner, peer and topic, refreshed in place under its id; never a self-match |
| Matches.RecordedValid | src/abenlux/developer/matches.py:63-79 | recording keeps ids in order and rows unique per owner, peer and topic |
| Matches.MatchStore.RecordConsent | src/abenlux/developer/matches.py:95-102 | adds one consent, none towards oneself |
| Matches.MatchStore.MutuallyConsented | src/abenlux/developer/matches.py:111-119 | true if and only if both directions are recorded on that topic, for two different people |
| Matches.MatchStore.ForOwner | src/abenlux/developer/matches.py:81-93 | own rows, newest first, none left out that is newer than a returned one or while there is room |
| Reveal.RowsComeInPairs | src/abenlux/api/server.py:417-419 | between ingests, in every run, each row has its mirror image with equal similarity and mode, one row per triple, never with oneself |
| Reveal.PeerHasTheRow | src/abenlux/api/server.py:417-419 | in every run the peer on a row owns a row for its owner on the topic, with equal similarity and mode |
| Reveal.IdsAreStable | src/abenlux/developer/matches.py:63-79 | a row id never changes its owner, peer or topic |
| Reveal.ConsentsComeFromOwners | src/abenlux/api/server.py:490-499 | a consent is recorded if and only if its owner asked for it on a row owned at the time |
| Reveal.RevealNeedsBothConsents | src/abenlux/api/server.py:452-508 | in every run, naming a peer on a topic needs both sides to have asked on that topic, each on a row they owned |
| Reveal.BothConsentsReveal | src/abenlux/api/server.py:461-478 | once both have asked, a view that lists the match names the peer |
| Reveal.SecondRequestReveals | src/abenlux/api/server.py:490-508 | the second of two requests names the peer at once |
| Reveal.FreshRowIsListed | src/abenlux/developer/matches.py:81-93 | an own, fresh row is missing from a listing only when fifty others are on it that are no older, and nothing else is listed |
| Reveal.NamedPeerIsListed | src/abenlux/api/server.py:461-478 | a response names only the peer of the row asked on, or of a row on the page |
| Reveal.IntroductionHappens | src/abenlux/api/server.py:452-508 | for any match of two people there is a run in which both ask and one is shown the other |
| Reveal.IngestMatches | src/abenlux/api/server.py:417-419 | every match of an ingested record is written on both sides, with the figures of the last match on those people and topic, and no other row changes |
| Reveal.IngestWritesBothSides | src/abenlux/developer/matches.py:63-79 | the same of the protocol's step, for any matches and any valid rows: both sides of each are there, an untouched row is as it was, a new row belongs to a match |
| Reveal.IngestInFull | src/abenlux/api/server.py:417-419 | one ingest of the protocol, spelled out: the last match on two people and a topic stands on both their sides, and rows on other people or topics are neither changed nor added |
| Reveal.CollabConsent | src/abenlux/api/server.py:490-508 | the endpoint is a protocol step, and its answer names a peer exactly when the protocol reveals one |
| Reveal.Me | src/abenlux/api/server.py:452-478 | the view lists the caller's fresh rows and names a peer exactly when the protocol reveals one |
| Learner.DominantIsUnique | src/abenlux/worktype_learn.py:80-82 | above one half the dominating label is the unique top |
| Learner.UniqueIffMajority | src/abenlux/worktype_learn.py:80-82 | two labels can never dominate the same term if and only if the required share exceeds one half |
| Learner.LearnedIff | src/abenlux/worktype_learn.py:73-84 | a term seen under two labels is learned if and only if it was seen often enough and the more frequent label has its share, and under that label |
| Learner.CountsAreMultiplicities | src/abenlux/worktype_learn.py:65-67 | a count is the number of observations of that term under that label |
| Learner.TaughtCounts | src/abenlux/worktype_learn.py:65-67 | one observation adds each term's occurrences under its label and nothing else |
| Learner.OrderDoesNotMatter | src/abenlux/worktype_learn.py:59-84 | without eviction, counts and vocabulary do not depend on the order of observations |
| Learner.EvictionKeepsExact | src/abenlux/worktype_learn.py:86-93 | dropping the excess, or all unlearned terms if fewer, keeps the vocabulary exact and the counts within the larger of the bound and the vocabulary |
| Learner.WorkTypeLearner.Teach | src/abenlux/worktype_learn.py:65-84 | after each observed term, learned means counted, supported and dominated, under a label on top |
| Learner.WorkTypeLearner.TeachAll | src/abenlux/worktype_learn.py:65-68 | the loop keeps the counts equal to the log of observations |
| Learner.WorkTypeLearner.EvictIfNeeded | src/abenlux/worktype_learn.py:86-93 | only unlearned terms go, least supported first, as many as are above the bound, or all of them if fewer |
| Learner.WorkTypeLearner.Observe | src/abenlux/worktype_learn.py:59-93 | ignores unusable observations; otherwise the counts taught, and past the bound exactly down to it, or to the learned terms: learned terms stay, kept counts are unchanged, no dropped term had more support than a kept unlearned one |
| Learner.WorkTypeLearner.Patterns | src/abenlux/worktype_learn.py:96-106 | each label with exactly its learned terms, no label without one |
| Trim.RunsExpandAndAreMaximal | src/abenlux/compress/__init__.py:178-183 | the runs expand to the original lines and none could be longer |
| Trim.MaximalRunsAreUnique | src/abenlux/compress/__init__.py:178-183 | there is only one such split |
| Trim.Fold | src/abenlux/compress/__init__.py:175-183 | the nested loops print exactly those runs |
| Trim.FoldLosesNothing | src/abenlux/compress/__init__.py:175-183 | from the folded lines the log can be read back, count and all, if no line of it looks like a count |
| Trim.CodesComeOff | src/abenlux/compress/__init__.py:173 | colour codes come off wherever they stand, and nothing else does |
| Trim.TrimmedLines | src/abenlux/compress/__init__.py:168-186 | the lines of a trimmed text, whatever its colours: codes off, then folded, then shortened |
| Trim.TrimKeepsTheLog | src/abenlux/compress/__init__.py:168-186 | up to 200 runs the log, colours apart, can be read back from the trimmed text, if no line of it looks like a count |
| Trim.TrimText | src/abenlux/compress/__init__.py:168-186 | a text without codes and line ends is returned as it is; otherwise stripped, folded and shortened |
| Trim.ShortenKeepsHeadAndTail | src/abenlux/compress/__init__.py:184-185 | past 200 runs exactly the first 120 and the last 40 stay, with the true number of runs between |
| Trim.MarkerCountsLinesIff | src/abenlux/compress/__init__.py:184-185 | the marker's number is that of the omitted lines if and only if none of them was repeated, and too small otherwise |
| Trim.MarkerUndercounts | src/abenlux/compress/__init__.py:178-185 | alternating lines with one of them twice in the middle: one line too few |
| Trim.NothingRepeatedNothingLost | src/abenlux/compress/__init__.py:168-186 | up to 200 lines without colour codes and without repeated neighbours are left alone |
| SlimTools.Dedupe | src/abenlux/compress/__init__.py:250-255 | the loop keeps the first definition of each signature, in order |
| SlimTools.FirstsStay | src/abenlux/compress/__init__.py:250-255 | what survives are the definitions no earlier one equals, in order |
| SlimTools.SlimTools | src/abenlux/compress/__init__.py:243-260 | the first array with a repetition is replaced, the other one untouched |
| SlimTools.EachOnce | src/abenlux/compress/__init__.py:250-256 | every definition survives exactly once, and a list changes if and only if it repeats one |
| SlimTools.OneArrayOnly | src/abenlux/compress/__init__.py:247-260 | the tools are treated if they repeat a definition, otherwise the functions, and the other array stays as it is |
| SlimTools.AppliesIffRepeated | src/abenlux/compress/__init__.py:243-260 | the strategy applies if and only if some array repeats a definition, and loses none |
| SlimTools.OnePassSufficesIff | src/abenlux/compress/__init__.py:247-260 | given that it applies, one pass is enough if and only if not both arrays repeat a definition |
| SlimTools.TwoPassesSuffice | src/abenlux/compress/__init__.py:247-260 | after two applications there is nothing left to drop |
| Breakpoints.CacheBreakpoints | src/abenlux/compress/__init__.py:329-363 | the branches on the provider, the size, the count and the shape of the system prompt |
| Breakpoints.MarkBlocks | src/abenlux/compress/__init__.py:353-363 | the last text block is marked, if no block is marked yet |
| Breakpoints.MarkIsOnTheLastText | src/abenlux/compress/__init__.py:353-363 | the marker stands on the last block with text and no other block changes |
| Breakpoints.CountedAreBlocks | src/abenlux/compress/__init__.py:317-326 | what is counted is the number of marked blocks in the prompt and the messages |
| Breakpoints.BlocksTextJoins | src/abenlux/compress/__init__.py:339-341 | the text of a prompt in blocks is their texts one after the other |
| Breakpoints.AddsOneMarkerAndNoWords | src/abenlux/compress/__init__.py:329-363 | exactly one counted marker more, at most four, and not a word of the prompt changes |
| Breakpoints.AppliesIff | src/abenlux/compress/__init__.py:329-363 | it applies if and only if the Anthropic system prompt is large, unmarked and not blank and the messages leave a marker to spare |
| Breakpoints.MarksOnce | src/abenlux/compress/__init__.py:358-359 | applying it to its own result does nothing |
| Breakpoints.TotalWithinFourIff | src/abenlux/compress/__init__.py:317-326 | with the markers on tools the total stays within four if and only if it was at most three |
| Compression.CompressRequest | src/abenlux/compress/__init__.py:444-466 | the strategies applied in order, failures skipped; the result is the caller's own object when nothing applied and a new one otherwise, and the applied names, the table and its sum are those of the steps that applied |
| Compression.AppliedInOrder | src/abenlux/compress/__init__.py:455-460 | the applied names are those of exactly the steps that applied, in the order of the list |
| Compression.EachNameItsOwn | src/abenlux/compress/__init__.py:461-463 | with distinct names each applied strategy is credited with the tokens its own step took off, or with none |
| Compression.GainsAgainstNet | src/abenlux/compress/__init__.py:461-463 | the sum of positive steps is at least the net saving, with equality if and only if no step grew the request |
| Compression.PerSumsToGains | src/abenlux/compress/__init__.py:462-466 | with distinct names the per-strategy table sums to the positive steps |
| Compression.SavedIsHonest | src/abenlux/compress/__init__.py:444-466 | for distinct strategies the reported saving is at least tokens before less after, with equality if and only if no applied strategy grew the request |
| Compression.RepeatedStrategyUnderstates | src/abenlux/compress/__init__.py:243-260 | tool deduplication listed twice, on a request with a definition repeated in both arrays, removes two definitions and reports one |
| Compression.NeverUnderstatedIff | src/abenlux/compress/__init__.py:431-466 | for a list of names the saving is never understated, for any strategies under them, any body and any token count, if and only if the names are distinct |
| Percentile.PercentileInUnit | src/abenlux/analytics/benchmark.py:119-134 | every percentile lies in [0, 1], rounded or not |
| Percentile.FlipIsComplement | src/abenlux/analytics/benchmark.py:119-134 | the two directions sum to exactly one, rounding included, if there is anyone to compare with, and to zero otherwise |
| Percentile.RankOrdersTheCohort | src/abenlux/analytics/benchmark.py:119-134 | within a cohort the better value ranks strictly higher, and equal ranks mean equal values |
| Percentile.RoundRobin | src/abenlux/analytics/benchmark.py:132-133 | everyone against everyone scores half a point per encounter |
| Percentile.PercentilesConserve | src/abenlux/analytics/benchmark.py:119-134 | over any cohort of n > 1 values the unrounded percentiles sum to exactly n / 2 |
| Percentile.PublishedPercentilesConserve | src/abenlux/analytics/benchmark.py:134 | the rounded ones sum to n / 2 within n times 0.00005 |

## Left out

- Chunked.Dechunk: a negative chunk size ends the body here; in the source it takes away the loop's progress, and its slice counts from the end.
- Parsing of the request line and of header fields: what they say about the body is a parameter. Bytes of a second request read along with the first stay in the body, as in the source.
- Sockets, TLS, certificates, HTTP clients and servers, threads as such: fragments are a sequence, replies are inputs, and lock-protected sections are atomic.
- JSON and UTF-8 decoding: the parsers start from decoded events and bodies; fields of the wrong type and nulls where the source does not guard against them are not modelled.
- SQL engines: tables are maps, sets and sequences. The Postgres variants share the queries and are not modelled separately.
- The digest of a cache key is taken as injective and the fields as UTF-8 bytes.
- Cosine, embeddings and keyphrases: similarity is any function, symmetric where a lemma says so.
- Collector steps that are not idempotent: shadow team memory, broker memory and bookings on redelivery. The end-to-end results are about the derived table without the team-memory columns.
- Token checks, the body size limit and malformed payloads at the ingest endpoint: in the protocol they are permanent refusals that store nothing.
- Item hardening and identity binding at ingest: one judgement per item that keeps the event id.
- An exception between the two match-row writes of one match, and concurrent writers between them: ingest of matches is one step.
- Contact cards, capsules and the rest of the developer view: only whether a peer is named.
- Order among equals: dictionary order decides the learner's top label when two labels tie (possible only at a share of one half or less) and which of equally supported terms is evicted; the model allows either. The same for rows of equal timestamp in a listing.
- The learner's term extraction, its file, its hot reload and its periodic save.
- Yield.Publish: work types of equal amount may come in any order; in the source they keep the order of the clusters.
- Compression.CompressRequest: each strategy is a function from body to optional body, standing for a copy and its changes; that a strategy copies deeply enough is not shown. The strategies other than log trimming, tool deduplication and cache markers, the token count of a body, and choosing strategies by name are left out.
- Percentiles: the ratios that are ranked, the noise, the k-anonymity gates and the median beside them.
- Request parsing of the adapters: the messages are given.
- Redaction, work-type patterns, language detection, routing, budgets, notifications, vendor sync, reports, dashboard and command line.

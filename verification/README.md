# Risezome: models and proofs

A Dafny model of the parts of Risezome whose correctness depends on state, ordering and interleaving: the capture
sidecar's frame format, the live page's event delivery, the grounded-or-nothing synthesis stream with its persistence
queue, the retrieval trigger, the chunker, rank fusion, the cached embedder, token rotation, and four smaller machines.

`dafny verify dfyconfig.toml` checks everything.

## How the models are built

Code that updates fields or loops over variables is a class or a method, and each such method's contract equates its
result and new state with a specification function. What the source promises is proved about those functions: over every
input, every cut of a stream, every run of a state machine, or every interleaving of its steps.

| file | models |
|---|---|
| `Common.dfy`, `JsText.dfy` | optional values, set sizes, JavaScript's white space and trimming |
| `FrameCodec.dfy` | frame encoder, incremental decoder, and the C sidecar's writer |
| `LiveChannel.dfy` | lossy broadcasts and a cursor-based poll, deduplicated by a bounded FIFO |
| `StatusGate.dfy` | the status line of a synthesis, read whole and read while it arrives |
| `Synthesis.dfy` | one synthesis, from the chunk stream to the sink calls |
| `Spelling.dfy` | what a page reads of an answer, against the text that is stored |
| `Words.dfy`, `Citations.dfy`, `CitationRules.dfy` | normalised text, and the verification of cited quotes against the sources |
| `Grounded.dfy` | the quotes an answer is announced with, from the chunk stream through the verification to the done call |
| `SinkQueue.dfy` | the promise chain that a meeting's syntheses share, their rows and their stored events |
| `Trigger.dfy` | the two-lane rate limiter, with other calls running during the embedding |
| `Chunker.dfy`, `Windows.dfy` | unit boundaries, overlapping windows, greedy packing, hard split |
| `Fusion.dfy` | reciprocal rank fusion over several lists, and the rerank gate |
| `EmbedKeys.dfy`, `EmbedCache.dfy`, `Embedder.dfy` | cache keys, the cache over whole histories, batched embedding |
| `TokenRotation.dfy`, `TokenOutcomes.dfy` | concurrent token calls in several processes against one versioned row |
| `SegmentTracker.dfy`, `Summarizer.dfy`, `Paging.dfy` | interim transcripts, the rolling summary, minimum-id paging |

Environment and assumptions:

- The network, the database, the clock, the model provider and the reranker are parameters: a theorem holds for every
  answer they can give, unless its contract names a condition (`Honest`, `IsPage`, `FreshFor`, `ClockRises`).
- Frame samples and participant ids are bytes and 16-bit integers; the 32-bit cast of the sidecar's payload length is written out.
- Scores and distances are reals; rounding is not modelled.
- Text is a sequence of characters. The status regular expressions are written out; the chunker's language regular
  expressions are arbitrary line predicates.
- SHA-256 is taken to have no collisions, so a cache key is its preimage.
- What is cited in a final text, and which ranks its ALSO line names, are arbitrary functions of the text; the
  verification of what is cited is modelled in `Citations.dfy` and composed with the run in `Grounded.dfy`.

## Where the code does not do what its comments say

Each of these is proved. Where a promise holds under a condition, the condition is exact.

- A refusal can be streamed and then retracted (`core.ts:1129-1132` says never). It stays hidden, however the output is
  cut, exactly when it is a status line whose tag follows the colon within two white-space characters on the same line:
  `RefusalHiddenIff`, `RefusalNeverStreamedIff`. Any other refusal, the legacy sentinel included, can start the page
  and then retract; it puts something other than white space on it exactly when its status line has a newline between
  colon and tag: `RefusalShowsInkIff`.
- The deltas of an answer need not spell the stored text (`core.ts:1405-1407`). There are two failing families: an `ALSO:`
  line is removed after sentences of the raw body were sent (`AlsoLineLeavesNewline`), and a loose status line, such as
  `STATUS:` on a line of its own, is itself streamed as prose until its tag has arrived (`SplitTagShowsToken`).
  `DeltasSpellAnswerIff` gives the exact condition over all answers.
- The poll's cursor does skip an event that becomes visible with an id at or below the horizon
  (`realtime-meeting-channel.ts:109-110`): `DeliveredIffVisibleInTime`, `OvertakenIsLost`.
- A question is not always fired within its ceiling (`retrieval.ts:80-85`): one whose embedding was awaited while another
  call fired, with nothing heard since, is dropped as below the utterance threshold: `QuestionFiresIff`, `SecondQuestionDropped`.
- The clock is read before the embedding is awaited, so commits may be out of clock order, and the per-minute bound does
  not survive a commit that is one millisecond late: `MinuteBoundIffInOrder`, `OutOfOrderBurst`.
- A done event can be stored with no row behind it (`sink-supabase.ts:270-276` means to rule that out), exactly when the
  start insert had no effect: `AnnouncedDoneIsStored`, `AnnouncedWithoutRow`.
- A token write that fails for another reason than a lost race takes the same branch (`atlassian-token.ts:193-212`). The
  expired token is handed back exactly when no other refresh from that row has been stored by the re-read, and the new pair
  is forgotten: `HandsBackBaseIff`, `FailedWriteReturnsExpired`.
- A done call carries quotes that occur in no part of the cited document (`prompt.ts:598-600` and `673-680` say they are
  rejected or stripped). There are two failing families, and `Grounded.QuotesOccurIff` is exact over both: a quote
  without an ASCII letter or digit, such as one in Japanese, has an empty loose form and is verified against every
  document (`VerifiedAnywhereIff`, `FabricatedQuoteIsAnnounced`); a paraphrase that shares 20 characters keeps its quote
  (`ParaphraseIsAnnounced`). `KeptMeansOccursIff` says of which quotes neither can happen, whatever the sources.
- Configuring a reranker cuts an answer to 25 hits even when it is never called: `RerankGate`, `UncalledRerankerCuts`.
  The pipeline asks for `topK` hits, 5 by default (`core.ts:52-56`).
- The encoder accepts payloads that the decoder rejects, and a push that throws drops the frames it had decoded:
  `RoundTripExactly`, `OversizedIsLost`, `OversizedFrame`, `SplitInvariance`.
- With zero lines per chunk a file yields nothing: `ZeroLinesDropEverything`.

## Model

| member | source | states |
|---|---|---|
| FrameCodec.SplitInvariance | apps/bot-worker/src/debug/sidecar-protocol.ts:83-127 | for every way of cutting a stream into pushes: the same error or none as one push of the whole; without an error the same frames and leftover bytes; with one, the missing frames are exactly those the throwing push had decoded |
| FrameCodec.DrainContinues | apps/bot-worker/src/debug/sidecar-protocol.ts:86-95 | decoding what an earlier decode left over, plus new bytes, continues the decode of the whole stream; a malformed frame stays where it was |
| FrameCodec.DecodeFrameStable | apps/bot-worker/src/debug/sidecar-protocol.ts:97-126 | once a frame or an error has been decided, more bytes do not change the decision |
| FrameCodec.DecodesIff | apps/bot-worker/src/debug/sidecar-protocol.ts:97-126 | a frame is decoded if and only if the bytes of an encodable frame have arrived, and it is that frame |
| FrameCodec.WaitsIff | apps/bot-worker/src/debug/sidecar-protocol.ts:46-119 | the decoder waits if and only if the bytes begin an encodable frame or end inside a length field, so an error is reported as soon as the tag or length that causes it is complete |
| FrameCodec.ReportsWhatIsWrong | apps/bot-worker/src/debug/sidecar-protocol.ts:56-113 | which error it is, and its value, by the bytes: an unknown tag, an id over 256 bytes, a payload over 2^20 bytes, or an odd one |
| FrameCodec.MalformedForever | apps/bot-worker/src/debug/sidecar-protocol.ts:86-113 | after a push that threw, every later push throws the same error and delivers nothing |
| FrameCodec.DrainConserves | apps/bot-worker/src/debug/sidecar-protocol.ts:86-126 | the decoded frames print back to exactly the bytes consumed; nothing is lost, invented or reordered |
| FrameCodec.EncodeOfDecoded | apps/bot-worker/src/debug/sidecar-protocol.ts:35-126 | a decoded frame encodes to the bytes it was decoded from |
| FrameCodec.DecodeOfEncoded | apps/bot-worker/src/debug/sidecar-protocol.ts:35-113 | any frame the encoder writes is decoded as itself, or rejected for its payload size alone |
| FrameCodec.EncodeFailsIff | apps/bot-worker/src/debug/sidecar-protocol.ts:12-44 | the encoder refuses a frame if and only if its id has more than 256 bytes or its payload does not fit 32 bits |
| FrameCodec.RoundTrip | apps/bot-worker/src/debug/sidecar-protocol.ts:12-127 | a sequence of encodable frames, cut anywhere, is delivered as exactly that sequence with an empty buffer |
| FrameCodec.RoundTripExactly | apps/bot-worker/src/debug/sidecar-protocol.ts:9-113 | a written frame survives if and only if its payload is within the decoder's limit |
| FrameCodec.OversizedIsLost | apps/bot-worker/src/debug/sidecar-protocol.ts:104-113 | every frame the encoder writes past that limit yields no frame and the payload error, and its bytes stay in the buffer |
| FrameCodec.OversizedFrame | apps/bot-worker/src/debug/sidecar-protocol.ts:35-113 | there is one: 0x8_0001 silent samples of the local microphone |
| FrameCodec.FrameDecoder.Push | apps/bot-worker/src/debug/sidecar-protocol.ts:86-95 | a push returns the drained frames, or throws; its buffer keeps what was not consumed |
| FrameCodec.FrameDecoder.TryDecodeOne | apps/bot-worker/src/debug/sidecar-protocol.ts:97-126 | one frame is taken off the buffer only when it is complete |
| FrameCodec.FeedDecoder | apps/bot-worker/src/debug/sidecar-protocol.ts:83-95 | a decoder object run over the chunks delivers, throws and buffers as the run that SplitInvariance speaks of |
| Bytes.DecodeEncodeSamples | apps/bot-worker/src/debug/sidecar-protocol.ts:37-122 | samples survive the little-endian byte form |
| SidecarWriter.WriteFull | sidecars/linux/src/main.c:178-190 | under partial and interrupted writes the pipe receives a prefix of the buffer, all of it on success; it fails only on a write error that is not an interruption |
| SidecarWriter.WriteFrame | sidecars/linux/src/main.c:192-203 | success writes the header and then the payload, in that order and completely |
| SidecarWriter.SidecarMatchesEncoder | sidecars/linux/src/main.c:192-203 | the sidecar's bytes are the host's encoding of a local frame if and only if the payload length fits 32 bits |
| SidecarWriter.SidecarToDecoder | sidecars/linux/src/main.c:192-203 | captured local frames within the payload limit, cut anywhere by the pipe, are decoded as they were captured |
| LiveChannel.AppliedEventIds.MarkEventApplied | apps/portal/app/_lib/realtime-meeting-channel.ts:75-83 | set and FIFO hold the same ids, none twice, at most 500; the oldest leaves first |
| LiveChannel.MeetingChannel.HandleBroadcast | apps/portal/app/_lib/realtime-meeting-channel.ts:159-176 | a broadcast is dispatched and marked unless passed or remembered; the cursor does not move; an interim bypasses the dedup |
| LiveChannel.InterimsAreShown | apps/portal/app/_lib/realtime-meeting-channel.ts:159-176 | in every run each interim that arrives is shown once, and changes nothing else |
| LiveChannel.MeetingChannel.BeginFetch | apps/portal/app/_lib/realtime-meeting-channel.ts:100-107 | no second fetch starts while one is in flight; otherwise the cursor is captured |
| LiveChannel.MeetingChannel.FinishFetch | apps/portal/app/_lib/realtime-meeting-channel.ts:108-122 | the rows are replayed one by one against the live cursor; a failure only clears the guard |
| LiveChannel.ApplyRowsReachesEnd | apps/portal/app/_lib/realtime-meeting-channel.ts:415-428 | a page above the cursor is applied whole, dispatches only its own rows, and leaves the cursor on its last row |
| LiveChannel.NextKeepsInv | apps/portal/app/_lib/realtime-meeting-channel.ts:100-176 | every step of log, broadcast and poll keeps the invariant; the cursor never moves back and no dispatch is undone |
| LiveChannel.RunKeepsInv | apps/portal/app/_lib/realtime-meeting-channel.ts:100-176 | the same over whole runs |
| LiveChannel.CompleteKeepsInv | apps/portal/app/_lib/realtime-meeting-channel.ts:109-115 | a completed fetch brings the cursor to the end of its snapshot, or leaves it if that is further |
| LiveChannel.NothingSkipped | apps/portal/app/_lib/realtime-meeting-channel.ts:109-176 | whatever broadcasts were lost, reordered or repeated and however fetches failed, a logged event at or below the cursor was dispatched or seeded, unless it became visible too late |
| LiveChannel.NothingSkippedInOrder | apps/portal/app/_lib/realtime-meeting-channel.ts:109-115 | with ids becoming visible in ascending order the exception is empty |
| LiveChannel.AscendingOvertakesNothing | apps/portal/app/_lib/realtime-meeting-channel.ts:109-115 | ascending visibility never lets an event appear at or below a point already read |
| LiveChannel.DeliveredIffVisibleInTime | apps/portal/app/_lib/realtime-meeting-channel.ts:109-115 | delivery of an event is guaranteed in every continuation if and only if it becomes visible above the horizon |
| LiveChannel.OvertakenIsLost | apps/portal/app/_lib/realtime-meeting-channel.ts:415-428 | an event visible too late is passed over by a run that exists from every such state |
| LiveChannel.PassedIsFrozen | apps/portal/app/_lib/realtime-meeting-channel.ts:168-170 | once the cursor has passed an id no later step dispatches it |
| LiveChannel.PollCatchesUp | apps/portal/app/api/meetings/[meetingId]/events/route.ts:34-45 | one poll that gets a short page leaves nothing visible undelivered |
| LiveChannel.PageExists | apps/portal/app/api/meetings/[meetingId]/events/route.ts:34-45 | every log and cursor have a page: ascending, above the cursor, at most the limit, and nothing smaller left out |
| LiveChannel.DispatchedAgainExactly | apps/portal/app/_lib/realtime-meeting-channel.ts:168-171 | a delivery is dispatched exactly when the cursor has not passed it and it is not among the last 500 dispatches |
| LiveChannel.DuplicateNeeds500Others | apps/portal/app/_lib/realtime-meeting-channel.ts:69-83 | an id dispatched twice had 500 other, pairwise different ids dispatched after it, all while the cursor was below it |
| StatusGate.RefusalHiddenIff | packages/engine/src/synthesize/prompt.ts:552-586 | a refused output never makes the gate open, for any prefix, if and only if it is a status line with a tight gap |
| StatusGate.BeforeTag | packages/engine/src/synthesize/prompt.ts:433-433 | no prefix that ends before the tag does matches the status line |
| StatusGate.AfterTag | packages/engine/src/synthesize/prompt.ts:433-433 | every longer prefix matches the same tag at the same place |
| StatusGate.GateShows | packages/engine/src/synthesize/prompt.ts:450-586 | what the gate shows of any answer is a prefix of its body, or, while the tag of a loose status line is incomplete, everything that has arrived |
| StatusGate.FormingAllAlong | packages/engine/src/synthesize/prompt.ts:564-582 | an output whose status line is still forming was forming at every prefix |
| StatusGate.GateOnlyGrows | packages/engine/src/synthesize/prompt.ts:552-586 | for a steady answer (a tight status line, or no keyword at all): once the gate shows something, longer prefixes show extensions of it |
| StatusGate.LineOf | packages/engine/src/synthesize/prompt.ts:433-433 | keyword, white space and tag in any letter case, put together, are matched as that line |
| StatusGate.SplitStatusLine | packages/engine/src/synthesize/prompt.ts:433-586 | a newline between colon and tag still makes a refusal, and its gap is not tight |
| StatusGate.TaggedAnswer | packages/engine/src/synthesize/prompt.ts:450-457 | an answer tagged with any white space after the colon is shown as, and read as, what follows the line; its gap is tight exactly when it has at most 15 characters and no newline |
| StatusGate.StripsAlso | packages/engine/src/synthesize/prompt.ts:476-490 | any ALSO line of digits, commas, spaces and tabs after a text, in any letter case and indentation, is stripped with the newline before it, and the text's runs of empty lines are shortened |
| StatusGate.AlsoAtIff | packages/engine/src/synthesize/prompt.ts:472-476 | the match at an index is a line that begins there with white space, the word in any letter case, and nothing but digits, commas, spaces and tabs to its end |
| StatusGate.StoredText | packages/engine/src/synthesize/prompt.ts:478-490 | a body without such a line is stored as it is, so a garbled line eats no prose; otherwise the first such line is taken out |
| Synthesis.SynthesisRun.StartStreamingIfNeeded | apps/bot-worker/src/pipeline/core.ts:1174-1185 | start is called once, at the first need |
| Synthesis.SynthesisRun.FlushSentences | apps/bot-worker/src/pipeline/core.ts:1194-1216 | one delta with the text up to the last finished sentence, or to the end when forced |
| Synthesis.SynthesisRun.WithdrawAnswer | apps/bot-worker/src/pipeline/core.ts:1273-1311 | retract if streamed, refuse if not, and the miss |
| Synthesis.SynthesisRun.Finish | apps/bot-worker/src/pipeline/core.ts:1241-1448 | the done gate: refusal, ungrounded, or finalised with citations and additional ranks |
| Synthesis.SynthesisRun.Drive | apps/bot-worker/src/pipeline/core.ts:1220-1485 | for every chunk stream and ending, the calls made on the sink are the specified trace |
| Synthesis.EveryTraceHasShape | apps/bot-worker/src/pipeline/core.ts:1103-1133 | every run is silent, refused, answered, withdrawn, or left open, and how the stream stopped decides which |
| Synthesis.MissRecordedOnce | apps/bot-worker/src/pipeline/core.ts:1122-1127 | a miss is recorded exactly once when the terminal call is a refusal or a retraction, and never otherwise |
| Synthesis.AnsweredMeansGrounded | apps/bot-worker/src/pipeline/core.ts:1331-1437 | a done call has at least one citation; each is a surviving one with its quote and the card at its rank, every surviving one is there, and no additional rank is cited |
| Synthesis.UncitedSnoc | apps/bot-worker/src/pipeline/core.ts:1416-1424 | the additional ranks that are not cited are kept in order, as often as they were given |
| Spelling.DeltasSpellAnswerIff | apps/bot-worker/src/pipeline/core.ts:1187-1216 | for every answer that grounds: the deltas of every cut spell the stored text if and only if, once the gate has opened, the ALSO line leaves the finished sentences alone, and what a loose status line leaks is how the body begins |
| Spelling.PageHasSentences | apps/bot-worker/src/pipeline/core.ts:1194-1239 | while a steady answer arrives in any pieces, the page has exactly what has arrived up to the last full stop, exclamation or question mark, or newline |
| Spelling.SpelledIffShown | apps/bot-worker/src/pipeline/core.ts:1194-1239 | the same, in terms of what the gate shows of each prefix |
| Spelling.KeepsSentencesIff | packages/engine/src/synthesize/prompt.ts:478-490 | stripping the ALSO line keeps every finished sentence exactly when the line starts after the last one, no three newlines come before that, and that sentence's newline is not trailing |
| Spelling.ShownIff | packages/engine/src/synthesize/prompt.ts:552-586 | what the gate shows of any prefix has its sentences in the stored text exactly under the two conditions |
| Spelling.PlainAnswersAreSpelled | apps/bot-worker/src/pipeline/core.ts:1405-1415 | for an answer without an ALSO line and without a leaking status line, the deltas of every cut concatenate to the body |
| Spelling.SplitTagShowsToken | packages/engine/src/synthesize/prompt.ts:562-585 | with a newline between the colon and an answer's tag, whatever the body: a cut exists whose page begins with the control token, to the end |
| Spelling.AlsoLineLeavesNewline | apps/bot-worker/src/pipeline/core.ts:1405-1412 | every tagged answer that ends in an ALSO line can be streamed so that the page has the newline before it and the stored text has not |
| Synthesis.RefusalNeverStreamedIff | apps/bot-worker/src/pipeline/core.ts:1129-1132 | a refused output makes exactly the refusal calls, however cut, if and only if it is a status line with a tight gap |
| Synthesis.RevealedRefusalIsRetracted | apps/bot-worker/src/pipeline/core.ts:1273-1290 | cut where the gate is wrong, any other refusal is streamed and then retracted |
| Synthesis.LooseRefusalsAreShown | apps/bot-worker/src/pipeline/core.ts:1129-1132 | both failing families have members: a split status line, and the sentinel |
| Spelling.RefusalShowsInkIff | apps/bot-worker/src/pipeline/core.ts:1129-1132 | some cut of a refused output puts something other than white space on the page if and only if the status line has a newline between colon and tag |
| Citations.VerifyCitationsDetailed | packages/engine/src/synthesize/prompt.ts:706-753 | each citation keeps its rank and quote; a quoted one is verified exactly when its normal form occurs in some part of the cited document, downgraded exactly when it only shares 20 characters with one, and dropped otherwise or out of range |
| CitationRules.StatusIs | packages/engine/src/synthesize/prompt.ts:706-753 | the status of every citation, from the shown texts: a bare one verified, one out of range dropped, any other by its quote in the text or focus of the cited source and of those with the same document id, then by 20 characters of it in the first 20000 of each |
| CitationRules.RepunctuatedIsVerified | packages/engine/src/synthesize/prompt.ts:595-608 | a quote with the loose form of a passage from the text or focus of any part of the cited document is verified |
| CitationRules.MarksAreDropped | packages/engine/src/synthesize/prompt.ts:601-603 | each of the six quote marks, anywhere, makes no difference to the loose form |
| CitationRules.PunctuationIsSpace | packages/engine/src/synthesize/prompt.ts:604-607 | every other character that is not an ASCII letter or digit is as good as a space |
| Citations.LongestCommonSubstringLen | packages/engine/src/synthesize/prompt.ts:627-647 | the rolling table computes the length of the longest run two texts share, the second capped at 20000 |
| Citations.EndingIsLongest | packages/engine/src/synthesize/prompt.ts:634-645 | a table cell holds the longest common run ending there |
| Citations.VerbatimIsVerified | packages/engine/src/synthesize/prompt.ts:657-671 | a quote copied from any part of the cited document is verified, even if it begins or ends inside a word |
| Citations.SameWordsSameStatus | packages/engine/src/synthesize/prompt.ts:588-593 | a quote is verified if it has the words of a copied one up to white space and letter case |
| Citations.LooseFormIs | packages/engine/src/synthesize/prompt.ts:595-608 | the loose form is the lower-cased words that are left without quote marks and other punctuation, and empty exactly for a text without an ASCII letter or digit |
| Citations.PresentIff | packages/engine/src/synthesize/prompt.ts:719-731 | the verifier's presence test holds exactly when the quote's words occur in some part of the cited document (strictly, or without punctuation if anything is left), or the quote has no ASCII letter or digit |
| Citations.KeptOccursIff | packages/engine/src/synthesize/prompt.ts:706-753 | a kept quote occurs in the cited document unless it is absent without a letter or digit (then it is verified), or an absent paraphrase (then it is downgraded) |
| Citations.VerifiedAnywhereIff | packages/engine/src/synthesize/prompt.ts:595-600 | a quote is verified against every list of sources and every rank in it if and only if it has no ASCII letter or digit |
| Citations.WordlessIsVerified | packages/engine/src/synthesize/prompt.ts:719-744 | every such quote that is not blank is verified against a document of which nothing is shown, where it does not occur |
| Citations.ParaphraseIsKept | packages/engine/src/synthesize/prompt.ts:649-655 | every quote whose loose form is longer than 20 characters is kept by some document that does not have it |
| Citations.KeptMeansOccursIff | packages/engine/src/synthesize/prompt.ts:673-700 | whatever the sources, being kept means occurring if and only if the quote is blank, or has an ASCII letter or digit and at most 20 characters in loose form |
| Grounded.QuotesOccurIff | apps/bot-worker/src/pipeline/core.ts:1332-1359 | the quotes a done call carries all occur in the cited documents if and only if no citation of the final text is absent without a letter or digit, or an absent paraphrase; every quote carried occurs, shares 20 characters, or has no letter or digit |
| Grounded.FabricatedQuoteIsAnnounced | apps/bot-worker/src/pipeline/core.ts:1332-1359 | every non-blank quote without an ASCII letter or digit grounds every answer, however cut, against an empty source, and is announced with it |
| Grounded.ParaphraseIsAnnounced | apps/bot-worker/src/pipeline/core.ts:1332-1359 | every quote of more than 20 characters in loose form is announced with every answer, however cut, against some document that does not have it |
| Grounded.GroundedIsDone | apps/bot-worker/src/pipeline/core.ts:1220-1448 | an answer with a citation that resolves ends in a done call with the stored text and all it resolves to, however it is cut |
| WordForms.SqueezeThenTrim | packages/engine/src/synthesize/prompt.ts:591-593 | squeezing white space and then trimming gives the words one space apart |
| WordForms.FormOfPart | packages/engine/src/synthesize/prompt.ts:591-593 | a part of a text has its normal form in the text's normal form |
| SinkQueue.PersistQueue.Enqueue | apps/bot-worker/src/pipeline/sink-supabase.ts:106-111 | work joins the end of the chain and changes nothing that was done |
| SinkQueue.PersistQueue.Execute | apps/bot-worker/src/pipeline/sink-supabase.ts:183-395 | one piece of work does to its synthesis's row, and to the stored events, what the chain's step says |
| SinkQueue.PersistQueue.RunNext | apps/bot-worker/src/pipeline/sink-supabase.ts:106-111 | one link runs to its end, in call order, and no failure stops the next |
| SinkQueue.FailuresAreIsolated | apps/bot-worker/src/pipeline/sink-supabase.ts:100-111 | stored events are in call order, and whether each is stored depends on its own work alone |
| SinkQueue.StoredIff | apps/bot-worker/src/pipeline/sink-supabase.ts:183-395 | the event of a start is stored exactly if its insert is acknowledged and the event row stored, a delta's if the event row is stored, a done's if also encrypted and acknowledged, a refusal's or retraction's unless its row write raises |
| SinkQueue.EndIsStoredIff | apps/bot-worker/src/pipeline/sink-supabase.ts:257-395 | for every synthesis: the event of its last call is stored exactly under that condition, a retraction even after a failed update |
| SinkQueue.AllWellIsStored | apps/bot-worker/src/pipeline/sink-supabase.ts:183-395 | when nothing goes wrong, all events of every synthesis are stored in order and its row is left as it ended |
| SinkQueue.SynthesesDoNotInterfere | apps/bot-worker/src/pipeline/sink-supabase.ts:100-111 | for any interleaving of several syntheses' calls in one chain, each row and each synthesis's stored events are those of its own queue |
| SinkQueue.QueueOfTrace | apps/bot-worker/src/pipeline/sink-supabase.ts:183-395 | the queue of every synthesis has the shape of its trace |
| SinkQueue.RowHistory | apps/bot-worker/src/pipeline/sink-supabase.ts:183-395 | the row's status after every number of finished pieces of work, for every pattern of failures |
| SinkQueue.SettledRowsStay | apps/bot-worker/src/pipeline/sink-supabase.ts:257-395 | a row that is done or retracted stays so for the rest of the synthesis |
| SinkQueue.AnnouncedDoneIsStored | apps/bot-worker/src/pipeline/sink-supabase.ts:257-298 | whenever a done event is stored, the row if any is done; there is none exactly when the start insert had no effect |
| SinkQueue.AnnouncedWithoutRow | apps/bot-worker/src/pipeline/sink-supabase.ts:191-276 | every answered run has failures under which the done event is stored and no row exists |
| Trigger.RetrievalRuntime.Hear | apps/bot-worker/src/retrieval.ts:253-257 | the window keeps the last 8 utterances, and the count rises by one |
| Trigger.RetrievalRuntime.TryFire | apps/bot-worker/src/retrieval.ts:326-354 | gate and commit in one piece: the outcome, and the state it leaves |
| Trigger.FiresExactly | apps/bot-worker/src/retrieval.ts:326-354 | in every run and on any clocks a commit adds a fire if and only if an utterance was heard since the last one and it is a question within both ceilings, or there is no last fire, or that was 10 s earlier by its clock |
| Trigger.MeetingBounds | apps/bot-worker/src/retrieval.ts:86-90 | under any interleaving and any clocks at most 60 fires skip the cooldown, and every other fire is at least 10 s after the fire before it |
| Trigger.MinuteBounds | apps/bot-worker/src/retrieval.ts:328-354 | with commits in clock order any half-open minute has at most 6 fires that skip the cooldown and at most 12 in all |
| Trigger.RecentTwice | apps/bot-worker/src/retrieval.ts:328-330 | pruning the window again later is pruning it once |
| Trigger.OutOfOrderBurst | apps/bot-worker/src/retrieval.ts:263-354 | five questions that read their clocks before a later one fires and commit after it, each behind a cooling remark: 11 fires of one minute skip the cooldown, with no commit more than 1 ms late |
| Trigger.MinuteBoundIffInOrder | apps/bot-worker/src/retrieval.ts:326-354 | the bound of 6 in a minute holds of all runs whose commits are at most d ms behind an earlier one if and only if d is 0 |
| Trigger.QuestionFiresIff | apps/bot-worker/src/retrieval.ts:339-354 | a question within its ceilings fires unless another call fired during its embedding and nothing was heard after that |
| Trigger.SecondQuestionDropped | apps/bot-worker/src/retrieval.ts:339-344 | two questions asked together: the second is dropped as below the threshold |
| CodeStructure.FindUnitBoundaries | packages/engine/src/chunker/code-structure.ts:113-152 | the boundaries are line 0 and the top of the run above every line that starts a unit, ascending, none twice |
| CodeStructure.BoundaryIff | packages/engine/src/chunker/code-structure.ts:113-152 | a unit starts at line 0 and at the head of the comments and attributes above every line that is not indented, blank, a comment or closing, and declares something or follows a blank line, and nowhere else |
| CodeStructure.BoundariesPartition | packages/engine/src/chunker/code-structure.ts:108-152 | boundaries start at 0, rise strictly, stay inside the file, and include the top of every anchor's run |
| CodeStructure.RunIsMaximal | packages/engine/src/chunker/code-structure.ts:135-149 | the walk-back stops at the top of the maximal attached run (or below line 0) |
| CodeStructure.SameRun | packages/engine/src/chunker/code-structure.ts:135-149 | every line of a run walks back to the same top, anchors inside it included |
| CodeStructure.AnchorKeepsItsRun | packages/engine/src/chunker/code-structure.ts:135-149 | no boundary falls inside the run above an anchor, nor between the run and the anchor |
| Chunker.ChunkFile | packages/engine/src/chunker/file-chunker.ts:124-178 | files of unknown kind, oversized, empty or with a NUL give nothing; otherwise the chunks are the texts of the planned spans, non-empty, at most 8000 characters, at positions 0, 1, 2, ... |
| ChunkWindows.WindowsOverlap | packages/engine/src/chunker/file-chunker.ts:147-176 | from the options alone: with n lines per chunk and v = min(overlap, n - 1), window i begins at line i * (n - v) and has n lines or what there is, the last reaches the end, and consecutive windows share exactly v lines or what there is |
| ChunkWindows.OversizedUnitIsWindowed | packages/engine/src/chunker/file-chunker.ts:208-234 | a unit over n lines or 8000 characters is emitted as its own windows, spaced the same way, and no other span touches it |
| ChunkWindows.ChunksOfSpan | packages/engine/src/chunker/file-chunker.ts:164-255 | the chunks of a span are its lines joined and trimmed: none if blank, one up to 8000 characters, else the pieces of 8000 characters, trimmed, without blank ones |
| ChunkWindows.SplitOfWritten | packages/engine/src/chunker/file-chunker.ts:144-145 | whatever the line endings, a file is split into the lines it was written with |
| ChunkWindows.SplitOfJoin | packages/engine/src/chunker/file-chunker.ts:144-166 | joining lines and splitting them again gives the lines back |
| Chunker.ChunkByStructure | packages/engine/src/chunker/file-chunker.ts:186-244 | the packing loop emits the spans of the plan |
| Chunker.PackUnit | packages/engine/src/chunker/file-chunker.ts:223-241 | one turn of the loop: the buffer is always the lines since the last flush, and what is emitted is what the plan says |
| Chunker.EmitWindows | packages/engine/src/chunker/file-chunker.ts:162-213 | the window loop emits the windows of the span |
| Chunker.SplitHard | packages/engine/src/chunker/file-chunker.ts:247-255 | the pieces are the trimmed non-blank slices, none longer than the limit |
| Chunker.ChunkWriter.Emit | packages/engine/src/chunker/file-chunker.ts:196-203 | the pieces of a slice are appended, numbered on |
| Chunker.NoTextLost | packages/engine/src/chunker/file-chunker.ts:144-244 | in either mode the file's non-white-space characters are a subsequence of the chunks' in order, and every line lies in an emitted span |
| Chunker.WindowsKeepText | packages/engine/src/chunker/file-chunker.ts:162-213 | overlapping windows hold the text of their lines in order |
| Chunker.ZeroLinesDropEverything | packages/engine/src/chunker/file-chunker.ts:147-163 | with zero lines per chunk nothing is emitted |
| Chunker.InkOfAllTexts | packages/engine/src/chunker/file-chunker.ts:196-255 | trimming and hard splits lose none of the text of the spans they are applied to |
| Chunker.StructureConserves | packages/engine/src/chunker/file-chunker.ts:186-244 | with no oversized unit the chunks' non-white-space characters are, in order, exactly the file's |
| Chunker.PlanOfRun | packages/engine/src/chunker/file-chunker.ts:223-242 | a run of units that fit contributes its packs and nothing else, and leaves an empty buffer |
| Chunker.GreedyIsOptimal | packages/engine/src/chunker/file-chunker.ts:235-241 | no cutting of a run into consecutive packs within both budgets has fewer packs than the loop flushes |
| Chunker.PacksAreACutting | packages/engine/src/chunker/file-chunker.ts:235-241 | the loop's packs are such a cutting |
| Chunker.PackIsOneChunk | packages/engine/src/chunker/file-chunker.ts:196-247 | a pack within budget is one chunk, or none if blank; the hard split never cuts it |
| Fusion.Accumulate | apps/bot-worker/src/corpus-search.ts:207-261 | after both loops the table holds, in order of first appearance, each chunk's best distance, lexical match, floor test and summed rank scores |
| Fusion.FuseRrfMulti | apps/bot-worker/src/corpus-search.ts:207-278 | the result is the eligible entries, stably sorted by descending score and cut |
| Fusion.FusedIsTopCut | apps/bot-worker/src/corpus-search.ts:263-277 | the output is the top of one strict ranking (score, then first appearance) of the eligible chunks: none twice, at most the limit, and a chunk is left out only when the output is full of chunks ranked before it |
| Fusion.HitTells | apps/bot-worker/src/corpus-search.ts:207-277 | a returned hit tells whether a text list has its chunk, the least of its distances and its summed score, and is there only for a text match or a row within its own list's floor |
| Fusion.ReciprocalRank | apps/bot-worker/src/corpus-search.ts:222-256 | one list contributes 1 / (k + rank) to a chunk, with ranks from 1 |
| Fusion.DominanceIsKept | apps/bot-worker/src/corpus-search.ts:197-277 | a chunk ahead of another in every list that has the other is returned, and before it, whenever the other is |
| Fusion.DominantScoresMore | apps/bot-worker/src/corpus-search.ts:234-261 | and its summed score is strictly higher |
| Fusion.RerankGate | apps/bot-worker/src/corpus-search.ts:430-491 | against the same search without a reranker: it is called exactly when the cut leaves out pooled chunks and no hit of the answer is within the strong distance, or text-matched and within the floor; uncalled or failing, the answer is cut to 25, so the same if and only if at most 25 are asked for or eligible |
| Fusion.RerankedAnswer | apps/bot-worker/src/corpus-search.ts:478-486 | a reranker that is called and answers: hit i is the pooled chunk its i-th index inside the pool points at, up to the limit |
| Fusion.UncalledRerankerCuts | apps/bot-worker/src/corpus-search.ts:430-491 | with any number of text matches above 25 and any limit above 25, the uncalled reranker leaves 25 hits where the search without one has the smaller of the two numbers |
| Fusion.FusedSize | apps/bot-worker/src/corpus-search.ts:263-277 | the output has as many hits as there are eligible chunks, or the limit |
| WordForms.NormalizeIsJoin | packages/engine/src/embed/cache.ts:24-26 | the normal form is the text's words in order, one space apart |
| EmbedKeys.SameKeyIff | packages/engine/src/embed/cache.ts:18-35 | two items share a key exactly when domain, purpose and words agree, letter case included |
| EmbedCaches.EmbedCache.Get | packages/engine/src/embed/cache.ts:49-60 | a live entry is returned and becomes the youngest; a late one is removed |
| EmbedCaches.EmbedCache.Set | packages/engine/src/embed/cache.ts:62-76 | the eviction loop leaves room for one, oldest first, and the new entry is the youngest |
| EmbedCaches.HistoryInvariant | packages/engine/src/embed/cache.ts:37-76 | in every history the cache is a bounded part of the table of last-set values, in order of last use |
| EmbedCaches.ServedIsLastSet | packages/engine/src/embed/cache.ts:49-60 | what is served is the last vector set for the key, never after its deadline |
| EmbedCaches.WhyAKeyLeaves | packages/engine/src/embed/cache.ts:49-76 | a key leaves only when asked for after its deadline, or when as many other keys as the capacity have been used since |
| EmbedCaches.GetKeepsYoung | packages/engine/src/embed/cache.ts:49-60 | while no deadline passes a get finds exactly what is held, loses nothing, and makes the key one of the youngest |
| EmbedCaches.SetKeepsYoung | packages/engine/src/embed/cache.ts:62-76 | a set evicts none of a set of youngest keys that fits the capacity together with its own |
| Embedder.VoyageEmbedder.CachePass | packages/engine/src/embed/voyage.ts:73-93 | hits fill their places, exactly the held keys are hits while no deadline passes; every miss is listed once, under its domain, in order |
| Embedder.VoyageEmbedder.SendBatch | packages/engine/src/embed/voyage.ts:103-126 | a batch goes to its domain's model; its answers, in any order, incomplete or repeated, go to their own places and keys, and nowhere else; it succeeds exactly when there are data and every vector has the configured length |
| Embedder.VoyageEmbedder.SendDomain | packages/engine/src/embed/voyage.ts:96-128 | the slices of a domain ask for each of its missed items once, at most 128 at a time |
| Embedder.VoyageEmbedder.SendAll | packages/engine/src/embed/voyage.ts:96-128 | the domains are asked in order of first miss, until a request fails |
| Embedder.VoyageEmbedder.Embed | packages/engine/src/embed/voyage.ts:73-136 | from any sound cache and with an honest provider each place holds the vector a direct call for its item gives, hits plus requested inputs are the item count, and the cache stays sound; items all held are not asked for, and asked-for items are held afterwards if they fit |
| Embedder.EmbedInTurn | packages/engine/src/embed/voyage.ts:73-136 | for any history of calls from an empty cache, with any capacity and deadlines: every call returns at each place the vector a direct call for that item gives |
| Embedder.EmbedTwice | packages/engine/src/embed/voyage.ts:73-136 | the same items again, while no deadline passes and they fit: the second call asks for nothing |
| Embedder.VoyageEmbedder.SetIsSound | packages/engine/src/embed/voyage.ts:122-125 | storing a right vector under its key keeps every cached vector right for every item with that key |
| Embedder.AllPlaces | packages/engine/src/embed/voyage.ts:81-93 | the listed places and the hits account for every item exactly once |
| TokenRotation.NextKeepsInv | apps/portal/app/_lib/atlassian-token.ts:133-213 | every step of every call, refresh and process keeps the invariant; stored rows are only added |
| TokenOutcomes.ThrowsIff | apps/portal/app/_lib/atlassian-token.ts:71-213 | in every run a call throws if and only if its read failed or came after a disconnect, or it resumed from a refresh that was refused, failed to encrypt, or found no row or failed at its second read; from any other refresh it returns that refresh's token |
| TokenOutcomes.ReadsStoredRow | apps/portal/app/_lib/atlassian-token.ts:133-134 | the row a call goes by is the one stored when it read |
| TokenOutcomes.DecidesByExpiry | apps/portal/app/_lib/atlassian-token.ts:141-151 | a row with more than 60 s left gives its access token in every run; otherwise the call waits for its process's one unsettled refresh, or a new one from that row |
| TokenOutcomes.AnsweredWriteHandsOut | apps/portal/app/_lib/atlassian-token.ts:193-207 | an answered write that reached its row stores the whole pair one version up and hands out its access token |
| TokenOutcomes.ReReadHandsOutStored | apps/portal/app/_lib/atlassian-token.ts:209-212 | a second read that finds the row hands out the token stored at that moment |
| TokenOutcomes.GoodRefresh | apps/portal/app/_lib/atlassian-token.ts:133-207 | for every expired row, response and clock: the run without failures ends with the new pair stored one version up and its access token returned |
| TokenRotation.RotationsAreLinear | apps/portal/app/_lib/atlassian-token.ts:160-207 | each write raises the version by one and stores the whole pair answered to the token of the row it replaced; no two refreshes from one version both write |
| TokenRotation.OneRefreshPerProcess | apps/portal/app/_lib/atlassian-token.ts:145-151 | at most one refresh of a process is under way |
| TokenRotation.ReturnedWasStored | apps/portal/app/_lib/atlassian-token.ts:125-213 | in every run a returned token is that of a row no older than its refresh's base and stored by the return; it was stored between the call's read and its return unless a row written meanwhile was already expired for this call, and then is expired only if the refresh handed back its base |
| TokenRotation.HandsBackBaseIff | apps/portal/app/_lib/atlassian-token.ts:193-212 | in every run a refresh hands back the row it started from if and only if its write failed without effect and no other refresh from that row had been stored when it read again; otherwise a newer one |
| TokenRotation.ReReadHandsBackIff | apps/portal/app/_lib/atlassian-token.ts:209-212 | the same, at a re-read that finds the row and does not fail, in any reachable state |
| TokenRotation.FailedWriteReturnsExpired | apps/portal/app/_lib/atlassian-token.ts:193-212 | from any expired row: such a failure returns the expired token and stores the new pair nowhere |
| Segments.SegmentTracker.ResolvePartial | apps/bot-worker/src/segment-tracker.ts:83-109 | a partial opens, throttles or advances its participant's segment and touches no other |
| Segments.SegmentTracker.ResolveFinal | apps/bot-worker/src/segment-tracker.ts:125-140 | a final takes the stable id and the next revision, clears its segment and touches no other |
| Segments.ParticipantsDoNotInterfere | apps/bot-worker/src/segment-tracker.ts:60-140 | for any interleaving each participant's outputs are those of its own events alone |
| Segments.SpeechRises | apps/bot-worker/src/segment-tracker.ts:83-109 | sent partials of a speech carry the first id, revisions 0, 1, 2, ..., and are at least 250 ms apart |
| Segments.SentExactly | apps/bot-worker/src/segment-tracker.ts:83-109 | a partial is sent if and only if it is the first of its speech or 250 ms or more after the last one sent, with the next revision; one held back repeats the last |
| Segments.ParticipantKeyIs | apps/bot-worker/src/segment-tracker.ts:60-63 | the participant is what precedes the first two colons, or the whole id |
| Segments.FinalLandsOnSpeech | apps/bot-worker/src/segment-tracker.ts:125-140 | the final carries the first id and the largest revision, or its own id and 0 without a partial, and the next speech starts clean |
| Summarizer.MeetingSummarizerRuntime.RecordUtterance | apps/bot-worker/src/summarizer-runtime.ts:91-152 | a non-blank utterance is joined on and the window cut; nothing else changes |
| Summarizer.MeetingSummarizerRuntime.RecordAssistantAnswer | apps/bot-worker/src/summarizer-runtime.ts:103-111 | a non-blank answer joins the list, which keeps the last 8; nothing else changes |
| Summarizer.MeetingSummarizerRuntime.Dispose | apps/bot-worker/src/summarizer-runtime.ts:137-141 | only the disposed flag changes |
| Summarizer.MeetingSummarizerRuntime.RefreshIfStale | apps/bot-worker/src/summarizer-runtime.ts:120-164 | a call starts exactly when not disposed, none in flight, something heard, and the summary stale, with a snapshot of the state |
| Summarizer.MeetingSummarizerRuntime.Settle | apps/bot-worker/src/summarizer-runtime.ts:166-183 | a settled call clears the guard; a summary replaces the last one, an error keeps it, and after disposal neither is reported |
| Summarizer.TranscriptIsTail | apps/bot-worker/src/summarizer-runtime.ts:91-152 | in every run the transcript is the last `cap` characters of the join of all non-blank utterances, and the answers the last 8 |
| Summarizer.OneCallAtATime | apps/bot-worker/src/summarizer-runtime.ts:120-183 | in every run at most one call is in flight, and each later one starts no sooner than the staleness window after the one before it settled |
| Summarizer.AskedExactly | apps/bot-worker/src/summarizer-runtime.ts:120-164 | asking makes a call if and only if not disposed, all calls settled, something heard and the last settlement outside the staleness window; it carries the transcript's tail, the last summary that came back and the last 8 answers |
| Summarizer.SilentAfterDispose | apps/bot-worker/src/summarizer-runtime.ts:137-183 | after disposal no callback fires and no call starts, whatever happens |
| Paging.Paginate | apps/portal/app/_lib/trello-client.ts:102-130 | against a fixed set of items with distinct ids, in any order inside a page, paging ends and returns every item exactly once |

## Left out

- FrameCodec.RoundTrip: participant ids are byte strings, so an id that is not well-formed UTF-8 round-trips here although the host would replace its bytes.
- StatusGate.RefusalHiddenIff: letter case is folded for ASCII only, which is all the matched words contain; the case mapping of other characters, and surrogate pairs, are not modelled.
- Synthesis.AnsweredMeansGrounded: what is cited in a final text is an arbitrary function of it; the citation regular expression and its escapes are not modelled.
- Citations.VerifyCitationsDetailed: letter case is folded for ASCII only; a citation's position is not carried.
- Grounded.QuotesOccurIff: the list of cards is parallel to the sources, as the pipeline builds it.
- StatusGate.GateOnlyGrows: holds of steady answers only, because a loosely tagged answer replaces what was shown (Spelling.SplitTagShowsToken).
- SinkQueue.AnnouncedDoneIsStored: proved when a write that is acknowledged took effect; a write that reports an error may have.
- Trigger.QuestionFiresIff: near-duplicate suppression is not modelled; a question suppressed there never reaches the gate.
- Trigger.MinuteBounds: proved for commits in clock order; MinuteBoundIffInOrder shows that no lateness can be allowed.
- Fusion.DominanceIsKept: scores are reals, so two sums that differ by less than a rounding error are told apart here.
- Fusion.RerankGate: the text fetch and the reranker are one outcome: absent, failing, or a list of indexes.
- Embedder.VoyageEmbedder.Embed: the retries of one request, its delays and its token usage are one outcome; the vectors are right for one configuration of models, because the key does not name the model.
- TokenRotation.ReturnedWasStored: that the token was stored during the call needs the rows written since its refresh began to be unexpired by this call's clock; other writers of the row (key rotation, reconnecting) are not modelled, a disconnect is.
- Summarizer.OneCallAtATime: settling times are positive, because the source reads 0 as "never summarized"; a summarizer that throws before it returns a promise is not modelled.
- Paging.Paginate: the rate-limit retries of one request are not modelled; ids are compared as numbers, which fixed-length ids allow.
- Chunker.ChunkFile: the kind of a file and the dialect of its extension are arguments; the lookup tables and the regular expressions are not modelled.
- The control-line splitter beside the frame decoder, the terminal and reconnect handling of the live channel, and the reducer the events are dispatched to.
- Card emission, tool sources, traces and logging in the pipeline, and the answered-span ledger.
- Inline chunk metadata carried on fused hits, and the search calls themselves.
- Gap clustering and the ANSI renderer.
- Authentication, roles, key management, and everything that draws the pages.

# A verified model of tpm-attest

tpm-attest decides whether a game client may talk to an anti-cheat service. An agent turns the kernel's IMA log into a Merkle root, a shim keeps that computation incremental and posts a report bound to a server nonce, a server checks the report against enrolled keys and a pinned baseline, and an `LD_PRELOAD` hook lets messages through only when the shim says yes. This project models those parts in Dafny and proves what they promise, function by function and over whole runs. `dafny verify dfyconfig.toml` checks everything.

## How the parts are modelled

| file | models | form |
|---|---|---|
| `Text.dfy` | decimal, hex, UTF-8, `lower`, `strip` | functions with inverses |
| `Merkle.dfy` | the padded reduction and inclusion proofs | recursive functions, the reference definition |
| `ImaLog.dfy` | reading and parsing the log | functions, and loops proved against them |
| `ImaTree.dfy` | leaf hashes, tree builders, proof generator | loops over heap lists, proved equal to `Merkle` |
| `ImaBinding.dfy` | what a root and a proof commit to | lemmas |
| `LeafCache.dfy` | the shim's incremental cache | class with the two globals, and runs of kernel and shim events |
| `IsoTime.dfy` | UTC instants and `isoformat()` text | functions, order and round trip |
| `Nonces.dfy` | the nonce table under interleaved database blocks | traces of atomic blocks |
| `ServerSpec.dfy`, `Server.dfy` | tables, checks and endpoints | functions on table values; a class whose methods update the tables |
| `ServerRuns.dfy`, `HonestRuns.dfy`, `HonestExample.dfy` | serial runs of the server, alone and fed by the shim | lemmas over all call sequences, and one run that meets their hypotheses |
| `ServerChecks.dfy` | what rows, checks and verdicts mean | lemmas that write each out over the rows, the report and the oracles |
| `ServerBlocks.dfy` | the server with overlapping requests | a step system whose steps are single database blocks, and lemmas over every interleaving |
| `JsonReply.dfy`, `MockClient.dfy` | the reply printer and its two readers | functions, and loops over C buffers |
| `Hook.dfy` | the gate | buffer methods, a class with the C globals, and runs |
| `Relay.dfy`, `EndToEnd.dfy` | one shim connection; hook, shim and server together | method; step system built from the gate, the relay functions and the server's blocks |
| `DeliveredLog.dfy`, `DeliveryExample.dfy` | what a delivery says about the log; one delivery | lemmas over runs of the whole system, and one run |

SHA-256 is a parameter: any function from byte strings to 32-byte digests. It is never taken to be injective. Every result that needs collision resistance has the form "the conclusion holds, or two *different byte strings that were both hashed on the way* have equal hashes". The strings are always among those actually hashed, because a collision somewhere exists for every such function. Base64, X.509 parsing, `tpm2_checkquote`, `tpm2_readpublic` and the table of non-ASCII decimal digits are oracles with one fixed verdict per input. Python strings are sequences of characters; C text is a sequence of characters with NUL as terminator; hashed data and game messages are sequences of bytes.

## Main results

- **The root binds the log.** Two logs have equal printed roots exactly when their leaf pre-images agree index by index, unless a collision is at hand or, only for trees of different depth, a leaf pre-image is literally the 64 bytes of an inner node (`ImaBinding.RootBinding`). Equal pre-images mean equal fields (all but the template name) if and only if the fields hold equally many colons (`PreImageInjective`), and this lifts to logs (`RootBindsLog`) and to single entries with a proof (`InclusionBindsEntry`). The source's claim that the index prefix makes padding harmless is `EqualDepthBinding`; `Merkle.PaddingIsInvisible` shows what happens without the prefix.
- **Proofs are complete, sound and unique** at every index, those next to duplicated padding included.
- **The cache equals a rebuild, exactly when it can.** For every state and every three logs a collection may see, the refreshed cache is right if and only if a reset was detected or the old cache was aligned with the log (`LeafCache.RefreshCorrectIff`). In terms of the logs alone: a collection is right exactly when the second read finds fewer entries than the offset, or the log extends the one the cache was built from and the skipped lines parse, up to a collision of two leaves (`CollectionCorrectIff`). In every run whose collections meet that condition the cache equals a rebuild after each of them (`CacheRefinesRebuild`); a log of parseable lines that only grows, and an empty cache, always meet it.
- **Nonces.** A nonce is recognised exactly when it was issued and no later block consumed it or was timed past its deadline; issues are conserved; acceptances map one to one to issues at most 120 s old, under every interleaving and with no assumption that nonces are random or clocks agree.
- **Requests side by side.** `/attest` and `/enroll` are their separate database blocks, with any number of handlers in between. In every interleaving each status 200 rests on its own recognised nonce and on checks that passed on the tables as they were at its five reads (`ServerBlocks.SuccessesHaveOwnIssues`), and the last row is the last successful enrolment (`LastRowIsLastEnrolment`). Which rows stay active is settled exactly: when a closing enrolment leaves a sound table (`CloseLeavesOneActiveIff`), and when a failing one preserves the pin (`FailingEnrolmentKeepsPinIff`). With one enrolment at a time, readers see the pin exactly outside its window, and an accepted report agrees with it (`OneAtATimeKeepsPin`, `AcceptedMatchesPin`).
- **Baselines in serial runs.** The table is one optional pair of root and PCR map, written only by successful enrolments and otherwise left exactly as it was; `SerialRunIsBlocks` shows that serial runs are block runs, and `Server.Serve` that the class computes them.
- **Registration, honest completeness, and the accepted log.** Under strict policy the quote of every accepted report was checked with the AK of the machine's last registration, which carried an X.509 EK certificate; with requests side by side the key that checked the quote is the AK of the row whose EK was checked if and only if the last registration of the machine between the two reads, if any, brought that key (`ServerBlocks.StrictSuccess`). Honest reports are accepted. An accepted report is about the log that was enrolled, up to the colon counts, a collision, or a node used as leaf.
- **The checks, written out.** For every report, and whatever the tables are at the five reads, the verdict and its reason are those of one table of conditions over the report, the rows and the oracles (`ServerChecks.VerdictTable`).
- **The two decoders** agree with the printer on every prefix of every reply whose token or reason is a string, and `JsonReply.ReadersOnAnyValue` says for values of any JSON type exactly when they part.
- **The gate.** Every forwarded message follows an approved probe and its own approved query, which carried all of it (unless its length makes the computed capacity wrap), and goes to the callback registered last, whose own probe was approved exactly when its exchange was.
- **End to end.** In every run of hook, shim and server, with other clients, lost replies and crashes, deliveries map one to one to `/attest` handlers of reports the shim collected, each with a recognised nonce and passed checks, and those to issues of that nonce at most 120 seconds before (`EndToEnd.DeliveriesArePaidFor`; `DeliveryExample.DeliveryOccurs` is a run with a delivery). Where collections are harmless and enrolments do not overlap, a delivery whose handler read the table outside an enrolment's window is about the log enrolled last at that read, up to the colon counts, a collision, or a node used as leaf (`DeliveredLog.DeliveredLogIsEnrolledLog`). The steps of a connection are proved to leave the reply and the cache that `Relay.HandleClient` computes (`ConnectionIsHandleClient`).

## Where the code falls short of its documentation

- The docstring of `read_ima_log` (agent/ima_reader.py:122-126) says to pass the number of processed *entries*, but the code slices raw non-blank *lines*. With a malformed line before a good one the good one is hashed twice: `LeafCache.MalformedLineIsCountedTwice`. For a log that only grew, `GrowthCorrectIff` is the exact condition.
- A log that is reset and has grown back to at least the cached count before the next collection is not noticed, and the old leaves stay: `LeafCache.UnseenResetGoesStale`, with a concrete log in `ReplacedFileGoesStale`.
- The leaf pre-image joins its fields with colons without escaping, so a colon can move between the file hash and the file name: `ImaBinding.ColonCanMove`. `PreImageInjective` is the exact condition.
- `/enroll` switches the baseline off while it verifies. Overlapping enrolments can leave two active rows (`ServerBlocks.OverlappingEnrolmentsLeaveTwoActive`) or none although nothing was enrolled (`TwoFailuresLoseThePin`), and an attestation in between is judged as if nothing had ever been enrolled (`AttestDuringEnrolmentSeesNoPin`). `CloseLeavesOneActiveIff`, `FailingEnrolmentKeepsPinIff` and `OneAtATimeKeepsPin` are the exact conditions.
- The verification of a report reads the machine's row three times. A registration between the first read and the second lets a report through under strict policy whose quote does not verify under the registered AK: `ServerBlocks.StrictBindingCanFail`. `StrictSuccess` is the exact condition.
- The mock client looks for a substring, so a refusal whose reason is an object such as `{"valid": true}`, which the shim would pass on, is taken for an approval: `JsonReply.ObjectReasonDivides`. The present server sends strings only; `ReadersOnAnyValue` is the exact condition.
- The hook sets its callback before the probe is answered, so a rejected registration still redirects messages: `Hook.RejectedCallbackStillReceives`. `ReceiverApprovedIff` is the exact condition.
- A handshake that is JSON but no object, a challenge that is no JSON, and an answer of `/attest` that is JSON but no object raise exceptions that `_handle_client` does not catch, so the daemon ends: `Relay.HandleClient`.
- The README's 60 second timestamp window and the IOMMU policy are never consulted by the code; no property is stated about them.

## Model

| member | source | states |
|---|---|---|
| Text.DecIsCanonical | agent/ima_reader.py:208-211 | the printed number is the one text of ASCII digits without leading zero that has its value |
| Text.DecPlaces | agent/ima_reader.py:208-211 | one digit prints as itself, and appending a digit multiplies by ten |
| Text.HexAt | agent/ima_reader.py:264-270 | byte i gives digits 2i and 2i + 1 of `0123456789abcdef`, high half first |
| Text.Utf8CharIsStandard | agent/ima_reader.py:208-212 | each character has the length, lead byte, continuation bytes and bits of RFC 3629 |
| Text.Utf8Append | agent/ima_reader.py:208-212 | text is encoded piece by piece |
| Text.Utf8Single | agent/ima_reader.py:208-212 | a text of one character has that character's bytes |
| Text.LowerLetters | server/main.py:595-617 | each capital becomes its small letter, everything else stays |
| Text.LowerAppend | server/main.py:595-617 | lowering works piece by piece |
| Text.StripIs | agent/ima_reader.py:98-102 | blanks go from both ends of a line and from nowhere else |
| Text.StripSplits | agent/ima_reader.py:98-102 | every text is blanks, its stripped text, and blanks |
| Text.SpacesAre | agent/ima_reader.py:98-102 | the blanks are the 29 characters that str.isspace() accepts |
| Merkle.DepthBounds | agent/ima_reader.py:215-234 | for more than one leaf, 2^(depth-1) < n <= 2^depth |
| Merkle.RootIsTopDown | agent/ima_reader.py:215-234 | the bottom-up reduction of any layer is the top of the usual tree: full left halves, a node without a right half hashed with itself |
| Merkle.HashCount | agent/ima_reader.py:226-233 | a reduction makes n - 1 plus one hash per odd layer, and there are at most depth - 1 odd layers |
| Merkle.PaddingIsInvisible | agent/ima_reader.py:218-220 | repeating the last node of an odd layer changes neither root nor depth, so nothing but the leaves can tell padded logs apart |
| Merkle.SameRootSameDepth | agent/ima_reader.py:215-234 | of two layers with equal depth and root the shorter is a prefix of the longer, whose first extra node repeats an earlier one, unless hashed strings collide |
| Merkle.SameRootDeeper | agent/ima_reader.py:215-234 | equal roots at different depths make the first node of the shallower layer the hash of an inner pre-image of the deeper |
| Merkle.ProofComplete | agent/ima_reader.py:367-386 | folding a node with its siblings along the bits of its index gives the root, and there are depth siblings |
| Merkle.ProofSound | agent/ima_reader.py:367-386 | any proof of that length reaching the root is the genuine leaf and siblings, or a hashed pair collides |
| ImaLog.ParseGivesFields | agent/ima_reader.py:98-110 | whatever parses, its five fields joined by single spaces are the stripped line, and the first four hold no space |
| ImaLog.PrintParse | agent/ima_reader.py:98-110 | a printed entry parses back to itself if and only if its first four fields hold no space, its pcr is not empty and starts with no blank, its filename is not empty and ends with none |
| ImaLog.PrintedText | agent/ima_reader.py:98-110 | the printed line is the five fields with single spaces between |
| ImaLog.ParsesIff | agent/ima_reader.py:98-110 | a line parses if and only if its stripped text holds four spaces or more |
| ImaLog.EntriesOfOne | agent/ima_reader.py:140-146 | a log of one line holds its entry, or nothing if the line is blank or does not parse |
| ImaLog.EntriesFromEnds | agent/ima_reader.py:140-146 | reading from a start skips that many raw non-blank lines, none at 0 and all past the end |
| ImaLog.SummaryMeans | agent/ima_reader.py:164-184 | the counts of entries, of distinct file names and of modules, and whether an entry is named boot_aggregate |
| ImaLog.ModuleNames | agent/ima_reader.py:181-183 | a name counts as a module exactly if it ends in .ko or .ko.zst |
| ImaLog.ModulesAppend | agent/ima_reader.py:181-183 | the modules of two lists are added |
| ImaLog.ModulesOfOne | agent/ima_reader.py:181-183 | one entry counts once if its name is a module's |
| ImaLog.EntriesAppend | agent/ima_reader.py:140-146 | parsing distributes over concatenation of line lists |
| ImaLog.ReadImaLog | agent/ima_reader.py:117-146 | the loop returns the entries of the non-blank lines from the given line on, none when that is past the end |
| ImaLog.ReadImaLogLineCount | agent/ima_reader.py:149-161 | the count is the number of entries of the whole log |
| ImaTree.ReduceToRoot | agent/ima_reader.py:215-234 | the in-place loop computes the recursive root and depth with the counted hashes, and leaves the caller's list alone |
| ImaTree.BuildImaMerkleTree | agent/ima_reader.py:237-271 | root, depth, leaf count and leaves are those of the indexed leaf hashes, the empty log included |
| ImaTree.TreeIs | agent/ima_reader.py:237-271 | an empty log has the digest of nothing at depth 0; any other the top of the usual tree, the least depth that holds its leaves, and each leaf in hex |
| ImaTree.BuildIncrementalMerkleTree | agent/ima_reader.py:274-328 | the returned leaves are the cached ones followed by the new, and the tree is that of all of them |
| ImaTree.ChainIncremental | agent/ima_reader.py:274-328 | chaining over any split into batches gives the leaves and tree of one build of the whole log |
| ImaTree.GetImaProof | agent/ima_reader.py:335-392 | the separate proof loop returns the leaf, the siblings and the same root, or the error for an empty log or a bad index |
| ImaTree.ProofRejectedIff | agent/ima_reader.py:355-365 | the two errors, exactly for an empty log and for an index outside a non-empty one |
| ImaBinding.LeafText | agent/ima_reader.py:208-211 | a leaf hashes the canonical decimal of its index and the four covered fields, joined by colons |
| ImaBinding.IndexSeparates | agent/ima_reader.py:199-211 | equal leaf pre-images have equal indices, whatever the other fields hold |
| ImaBinding.PreImageInjective | agent/ima_reader.py:196-212 | equal encoded pre-images have equal indices, and equal covered fields if and only if those fields hold equally many colons; equal fields give equal pre-images |
| ImaBinding.ColonCanMove | agent/ima_reader.py:208-211 | entries that differ in file hash and file name have equal leaves under every hash |
| ImaBinding.PreImagesBindFields | agent/ima_reader.py:196-212 | two logs agree on every covered field exactly when they have equal pre-images and equal colon counts entry by entry |
| ImaBinding.EqualDepthBinding | agent/ima_reader.py:199-220 | logs of any two lengths with equal depth and root have equal pre-images, hence equal length, or collide |
| ImaBinding.UnequalDepthBinding | agent/ima_reader.py:215-234 | at different depths an equal root needs a collision or a leaf that is byte for byte an inner node |
| ImaBinding.RootBinding | agent/ima_reader.py:196-271 | equal pre-images give equal trees, and equal printed roots give equal pre-images, a collision, or a node used as leaf at different depth |
| ImaBinding.RootBindsLog | agent/ima_reader.py:196-271 | equal printed roots mean equal covered fields at every index if and only if the colon counts agree, unless a collision or a first leaf of the 64 bytes of an inner node is at hand, which digests of more than 64 characters rule out |
| ImaBinding.InclusionComplete | agent/ima_reader.py:335-392 | the proof returned for a valid index folds to the root the builder prints, with one sibling per level |
| ImaBinding.InclusionSound | agent/ima_reader.py:335-392 | any accepted leaf and sibling list is exactly what the generator returns, or a collision |
| ImaBinding.InclusionBindsEntry | agent/ima_reader.py:335-392 | an accepted proof for an entry shows that entry at that index if and only if the colon counts agree, or a collision |
| LeafCache.Shim.CollectReportIncremental | phase3/shim.py:207-285 | the globals and the report after one collection, for every failure of a read or of the quote |
| LeafCache.ReportIff | phase3/shim.py:240-285 | a report exists exactly if every read and the quote worked, and holds what they returned |
| LeafCache.RefreshCorrectIff | phase3/shim.py:248-267 | the refreshed cache is a rebuild of the log read if and only if a reset was detected, or the skipped lines all parse and the kept leaves are still a prefix |
| LeafCache.GrowthCorrectIff | phase3/shim.py:255-267 | from a right cache, and for any lines appended to the log, the refresh is right if and only if the raw lines it skips all parse |
| LeafCache.CollectionCorrectIff | phase3/shim.py:243-267 | a collection in a run is right exactly when a drop in the count is seen or the log extends the one the cache was built from, up to a collision of leaves |
| LeafCache.GrowthIsHarmless | phase3/shim.py:243-267 | an empty cache, and a log of parseable lines that only grew, always meet that condition |
| LeafCache.MalformedLineIsCountedTwice | phase3/shim.py:248-267 | in the run that grows the log by a bad line and a good one and collects twice, the first cache is right and the second holds the good line twice |
| LeafCache.MalformedFileIsCountedTwice | phase3/shim.py:248-267 | a concrete such run, with the line `x` before one measured file |
| LeafCache.UnseenResetGoesStale | phase3/shim.py:248-253 | in the run that collects, resets to any log with at least as many entries and collects again, the old leaves stay, and the cache is right exactly when the new log extends the old one, or two leaves collide |
| LeafCache.ReplacedFileGoesStale | phase3/shim.py:248-253 | a concrete such reset, one file replaced by another, leaves a wrong cache or shows a collision |
| LeafCache.NextKeepsInvariant | phase3/shim.py:243-285 | kernel changes, collections under that condition, failed reads after a flush and failed quotes keep the cache the leaves of the log it was last built from |
| LeafCache.CacheRefinesRebuild | phase3/shim.py:243-285 | in every run whose collections meet that condition each refreshed cache is a rebuild, the report carries that root, depth and count, and its summary counts no more entries than leaves |
| IsoTime.DatesOrdered | server/main.py:188-191 | calendar order of dates is order of day numbers, leap years included |
| IsoTime.Calendar | server/main.py:188-191 | leap years, month lengths, and how many microseconds a day and the calendar have |
| IsoTime.DaysFollow | server/main.py:188-191 | day 0 is the first of January of year 1, and each day number is followed by that of the next calendar day |
| IsoTime.KnownDays | server/main.py:188-191 | the day numbers of five known dates, the last of year 9999 among them |
| IsoTime.IsoText | server/main.py:188-191 | the text is date, T, time, a six-digit fraction if it is not zero, and +00:00, for the one date and clock of the instant |
| IsoTime.FixedIs | server/main.py:188-191 | a field of w digits is the one such text with its value |
| IsoTime.IsoOrder | server/main.py:208-213 | comparing two isoformat texts byte by byte compares the instants, with or without a fraction, for years 1 to 9999 |
| IsoTime.IsoRoundTrip | server/main.py:226 | reading an isoformat text back gives the instant |
| Nonces.PurgeIsByTime | server/main.py:209-213 | the purge by text removes a stored nonce exactly when its 120 seconds are over |
| Nonces.InsertsIff | server/main.py:185-197 | an insert works exactly for a nonce not stored, up to 120 seconds before the end of the year 9999 |
| Nonces.IssuedIsRecognised | server/main.py:185-233 | after such an insert the nonce is stored beside the others and is recognised exactly up to 120 seconds later; otherwise the table stays as it was |
| ServerSpec.ChallengeSucceedsIff | server/main.py:644-657 | a challenge is answered with status 200 exactly then, and its nonce is stored and recognised for 120 seconds |
| ServerSpec.LookupIff | server/main.py:295-312 | a lookup gives the value of the first pair with the key, and none exactly if no pair has it |
| ServerSpec.ReportedIff | server/main.py:611-613 | the reported PCR equals a value up to case exactly if the report maps the key to such a value, or lacks it and the value is empty |
| ServerChecks.VerdictTable | server/main.py:542-631 | every check in its order over report, oracles and the tables at its read, the first that fails giving the reason, for all reports |
| ServerChecks.VerdictOfRun | server/main.py:525-631 | in any serial run a report with a recognised nonce gets that verdict, and any other is refused as unknown, never as expired |
| ServerChecks.QuoteIff | server/main.py:437-518 | a quote passes exactly if both blobs and the key decode and the tool accepts them, under the registered AK or else the host's own |
| ServerChecks.ZeroPcrIff | server/main.py:569-574 | a PCR is refused exactly for 0x and 64 zeros, PCR 10 of registered machines excepted |
| ServerChecks.ParsesBase16Iff | server/main.py:585-590 | the root passes exactly if it is blanks, a sign, a prefix, digits with single underscores, blanks |
| ServerChecks.PlainTextAt | server/main.py:585-590 | before that ASCII stays, other blanks become spaces, other decimal digits zeros, and nothing else passes |
| ServerChecks.ActiveRowIff | server/main.py:275-281 | readers of the active row get the last of the active rows |
| ServerChecks.PinnedRow | server/main.py:284-292 | pinning keeps every old row but for its flag and adds one active row with the next id, the lower-cased root and the PCRs |
| ServerChecks.RegisteredIff | server/main.py:660-705 | a registration is rejected exactly for an EK text that does not decode, or decodes to no certificate and too few bytes or a strict policy; otherwise the row is replaced |
| Nonces.AnswerIsDecidedByPurge | server/main.py:226-233 | after the purge the second expiry test is never taken |
| Nonces.RecognisedIff | server/main.py:200-233 | recognised if and only if issued, and since then neither consumed nor passed by any clock |
| Nonces.RecognisedWithOneClock | server/main.py:200-233 | where no clock ran ahead: recognised if and only if issued, not submitted since, and at most 120 seconds old |
| Nonces.AcceptedIsBacked | server/main.py:185-233 | every acceptance has an earlier issue of the same nonce, in time, with nothing in between that used it up |
| Nonces.OneAcceptancePerIssue | server/main.py:223-224 | no issue backs two acceptances |
| Nonces.SubmittedIsBurned | server/main.py:535-540 | a submitted nonce is absent, whatever the verdict, until issued again |
| Nonces.Conservation | server/main.py:185-233 | issues are acceptances plus purges plus one if still stored, in every trace |
| Server.AttestServer.IssueNonce | server/main.py:185-197 | inserts the deadline text, or fails on a taken key or an overflowing date |
| Server.AttestServer.ConsumeNonce | server/main.py:200-233 | the table after purge and delete, and the answer |
| Server.AttestServer.PinBaseline | server/main.py:284-292 | all rows off, one new active row with the next id and the lower-cased root |
| Server.AttestServer.VerifyEkCert | server/main.py:320-371 | X.509 always, raw keys of four bytes or more only without strict policy |
| Server.AttestServer.VerifyQuoteSignature | server/main.py:437-518 | which key the quote is checked with, and every way it fails |
| Server.AttestServer.CheckPcrs | server/main.py:569-574 | the loop reports the first all-zero PCR, PCR 10 of enrolled machines excepted |
| Server.AttestServer.VerifyReport | server/main.py:525-631 | nonce first, then the checks in order, touching only the nonce table; `ServerChecks.VerdictTable` writes them out |
| Server.AttestServer.ChallengeEndpoint | server/main.py:644-657 | one nonce issued or a failed insert, and nothing else changes |
| Server.AttestServer.RegisterEndpoint | server/main.py:660-705 | upsert or rejection, and nothing else changes |
| Server.AttestServer.AttestEndpoint | server/main.py:708-733 | the tables and the status of one attestation |
| Server.AttestServer.EnrollEndpoint | server/main.py:736-778 | deactivate, verify, then pin or restore |
| Server.Serve | server/main.py:644-778 | the class, driven through any sequence of calls from a new server, has the tables and statuses of the serial run, one active row and the abstract pin |
| ServerRuns.ReadersReadPin | server/main.py:275-312 | both readers of the active baseline read the one pinned pair |
| ServerRuns.RestoreUndoes | server/main.py:757-765 | restoring by root re-activates exactly the row that was active |
| ServerRuns.HandleRefinesPin | server/main.py:644-778 | each request moves the pinned pair as the abstract machine does, and leaves the rows untouched unless it enrols |
| ServerRuns.BaselinesRefinePin | server/main.py:275-312 | in every serial run the last row alone is active, ids ascend, roots are 64 lower-case characters, and the table is the abstract variable |
| ServerBlocks.NextKeepsGood | server/main.py:185-312 | no block of any handler, in any order, breaks the trace of nonce blocks, the order and roots of the rows, the evidence for each verdict, or that nonce blocks are distinct |
| ServerBlocks.SuccessesHaveOwnIssues | server/main.py:525-631 | every status 200 has a recognised nonce and checks that passed at its five reads, and different ones have different nonce blocks and issues |
| ServerBlocks.LastRowIsLastEnrolment | server/main.py:284-292 | in every interleaving the last row is the last successful enrolment, which restores and deactivations do not change |
| ServerBlocks.RestoreLeavesOneActiveIff | server/main.py:757-765 | restoring by root leaves one active row if and only if no row but its target is active, and a sound table if the target is also the last row |
| ServerBlocks.CloseLeavesOneActiveIff | server/main.py:755-770 | the closing block of an enrolment leaves a sound table exactly when it pins, or puts back the last row with all others off, or had nothing to put back in a sound table |
| ServerBlocks.FailingEnrolmentKeepsPinIff | server/main.py:748-765 | in every interleaving readers read the last enrolled row after a failing enrolment exactly when they did before or its first read saw that root; with no pin in between that is the baseline of the read |
| ServerBlocks.OneAtATimeKeepsPin | server/main.py:748-770 | with one enrolment at a time and anything else in between, a reader sees the last enrolled root exactly when there is none or no enrolment stands between clearing and closing |
| ServerBlocks.AcceptedMatchesPin | server/main.py:595-620 | then an accepted report has the root, and where required the PCR 7, enrolled last when its handler read them, unless the read fell into an enrolment's window |
| ServerBlocks.StrictSuccess | server/main.py:437-559 | under strict policy and in every interleaving an accepted report's machine had an X.509 EK at the second read and its quote verified under the key of the first, which is the AK of the second read's row if and only if the last registration in between, if any, brought it |
| ServerBlocks.LateRegistrationRun | server/main.py:437-559 | from any state, an attestation whose machine is registered after its first read succeeds exactly when the checks pass on the tables without it there and with it at the other reads |
| ServerBlocks.StrictBindingCanFail | server/main.py:437-559 | a run under strict policy in which such a report is accepted although its quote does not verify under the only AK ever registered |
| ServerBlocks.UninterruptedIsHandle | server/main.py:644-778 | a handler whose blocks are not interrupted does to the tables what the serial handler says, with the same verdict, from any state |
| ServerBlocks.SerialRunIsBlocks | server/main.py:644-778 | every serial run is a run of blocks |
| ServerBlocks.OverlappingEnrolmentsLeaveTwoActive | server/main.py:749-765 | a run of two overlapping enrolments, the second pinning and the first then failing, leaves two active rows if and only if the second brought another root |
| ServerBlocks.TwoFailuresLoseThePin | server/main.py:749-765 | a run of two overlapping enrolments that both fail leaves no active row |
| ServerBlocks.AttestDuringEnrolmentSeesNoPin | server/main.py:595-600 | an attestation between an enrolment's clearing and close succeeds exactly on the condition for an empty baselines table |
| ServerRuns.RunIsBlocks | server/main.py:644-778 | the nonce table of a serial run is that of its nonce blocks |
| ServerRuns.NoMoreSuccessesThanChallenges | server/main.py:185-233 | in every serial run a nonce gets at most as many status 200 answers as successful challenges, less one if it is still stored |
| ServerRuns.SuccessNeedsNonce | server/main.py:535-540 | no status 200 from attest or enroll without a recognised nonce |
| ServerRuns.RowIsLastRegistration | server/main.py:248-268 | a machine's row is its last successful registration |
| ServerRuns.StrictRegistrationBinding | server/main.py:551-559 | under strict policy an accepted report's machine last registered with an X.509 EK, and its quote was checked with that registration's AK |
| HonestRuns.HexDigestParses | server/main.py:581-590 | the hex of any digest has 64 characters, parses in base 16 and is lower case |
| HonestRuns.WaitingNonceRecognised | server/main.py:200-233 | through any calls that do not submit it, a nonce is recognised within 120 seconds |
| HonestRuns.ChecksIff | server/main.py:542-631 | the checks pass exactly on the stated condition over the abstract pin |
| HonestRuns.AttestIff | server/main.py:708-733 | in any serial run attest succeeds exactly when the nonce is recognised and that condition holds |
| HonestRuns.EnrollIff | server/main.py:736-778 | in any serial run enroll succeeds exactly when the nonce is recognised and that condition holds with no pin |
| HonestRuns.HonestReportAccepted | server/main.py:525-631 | an honest collection, answered in time under met policies and a matching baseline, is accepted |
| HonestExample.HonestSettingOccurs | server/main.py:525-631 | a run under strict policy, with an enrolled baseline and nonces of 64 characters, in which those conditions all hold and the report is accepted |
| HonestRuns.EmptyLogRejected | server/main.py:592-593 | a report collected from an empty log is rejected by both endpoints |
| HonestRuns.AcceptedLogIsEnrolledLog | server/main.py:595-600 | an accepted report with the root of some log is about the enrolled log if and only if their colon counts agree, or a collision or a node used as leaf is at hand |
| JsonReply.ScannerCharacters | phase3/eac_hook.c:71-92 | the blanks and the delimiters of the scan, by name |
| JsonReply.ScanIsSaysTrue | phase3/eac_hook.c:56-93 | the scan is the grammar: first quoted key, blanks, colon, blanks, true, delimiter or end |
| JsonReply.ParseJsonBool | phase3/eac_hook.c:56-93 | on every NUL-terminated buffer the result is that grammar, reading nothing past the NUL |
| JsonReply.EscapeGuards | phase3/shim.py:354-357 | an escaped string is printable ASCII in which every quote follows a backslash |
| JsonReply.EscapeInjective | phase3/shim.py:354-357 | different strings are escaped differently |
| JsonReply.EscapeCharIs | phase3/shim.py:354-357 | what json.dumps prints for each character: itself, a two-character escape for seven, one or two \u units for the rest |
| JsonReply.PrintedReply | phase3/shim.py:440-448 | the whole reply for a token or reason of plain ASCII |
| JsonReply.DecodersAgree | phase3/mock_eac_client.c:40-50 | on every prefix of every reply both readers say yes exactly for an approval of which 14 characters arrived |
| JsonReply.ReadersOnAnyValue | phase3/shim.py:440-448 | whatever JSON value stands under token or reason, the hook decides by the first 14 characters, and the mock differs exactly on refusals whose value shows one of its needles |
| JsonReply.ObjectReasonDivides | phase3/mock_eac_client.c:40-50 | a refusal whose reason is the object with valid true is such a reply |
| MockClient.ResponseValid | phase3/mock_eac_client.c:40-50 | one of the two needles occurs |
| MockClient.Receive | phase3/mock_eac_client.c:119-133 | the buffer holds the prefix that arrived, terminated, for any segmentation, or a recv() failed before the buffer was full or the peer closed |
| MockClient.ArrivedIsSum | phase3/mock_eac_client.c:119-133 | without failures what arrives is the least of the stream, 4095 and the sum of the segments |
| MockClient.CutsDoNotMatter | phase3/mock_eac_client.c:119-133 | cutting a segment in two changes nothing |
| MockClient.FailureIs | phase3/mock_eac_client.c:125-131 | a failing call before the stream or the buffer is full fails the whole, a close there ends it with what has arrived |
| MockClient.Handshake | phase3/mock_eac_client.c:117-151 | exit status 0 exactly for an approval of which 14 characters arrived with no failing recv() |
| MockClient.SegmentsSuffice | phase3/mock_eac_client.c:117-151 | without failures the condition of exit status 0 is an approval and segments of 14 bytes or more in all |
| Hook.BytesToHex | phase3/eac_hook.c:97-104 | in bounds for every capacity of at least one, and the hex of as many whole bytes as fit |
| Hook.WholeMessageFitsIff | phase3/eac_hook.c:215-221 | the capacity computed in size_t holds the whole message exactly when 2 * len + 4 stays below 2^64, and is zero for exactly two lengths |
| Hook.BuildJson | phase3/eac_hook.c:187-204 | succeeds exactly when the request fits, and then writes all of it |
| Hook.RequestCarriesMessage | phase3/eac_hook.c:187-231 | the whole message can be read back from the request, whatever the player id holds |
| Hook.RequestText | phase3/eac_hook.c:187-197 | the request, written out around player id and message |
| Hook.RequestCarriesPlayer | phase3/eac_hook.c:187-197 | a player id without quotes is what stands before the next quote |
| Hook.RequestInjective | phase3/eac_hook.c:187-231 | different ids or messages make different requests |
| Hook.RequestsAreOwn | phase3/eac_hook.c:209-291 | in every run each request is that of its own call, with the first 255 characters of the last user id or unknown |
| Hook.ShimQuery | phase3/eac_hook.c:157-181 | yes exactly when something was read that says true, no on every failure |
| Hook.HookLibrary.BeginSession | phase3/eac_hook.c:251-256 | the player id is the first 255 characters, terminated |
| Hook.HookLibrary.AddNotify | phase3/eac_hook.c:270-319 | callback set first, then probe, then registration only if approved and resolved |
| Hook.HookLibrary.HookCallback | phase3/eac_hook.c:209-244 | forwards the message it was given only on its own approved query, which carried what fits the computed capacity |
| Hook.GateIsSafe | phase3/eac_hook.c:209-319 | in every run a forwarded message follows its own approved query in fewer than 8192 characters, carrying all of it unless its capacity wrapped, and an approved probe before that |
| Hook.CallForwardsOnlyItsMessage | phase3/eac_hook.c:239-243 | one call forwards at most its own message, unchanged, to the callback set last |
| Hook.ForwardedIff | phase3/eac_hook.c:209-244 | a message is let through exactly on the approval of a request that fits, with a callback set and memory at hand |
| Hook.RegisteredIff | phase3/eac_hook.c:270-319 | the callback is always taken, and the hook's own handed over exactly on an approved probe with the runtime's function found |
| Hook.ReceiverApprovedIff | phase3/eac_hook.c:239-319 | in every run a forwarded message goes to the callback of the last registration before its call, whose own probe was approved exactly when its exchange was |
| Hook.ReceiversApproved | phase3/eac_hook.c:239-319 | if no registration after the first one handed to the runtime is refused, every receiver's own probe was approved |
| Hook.RejectedCallbackStillReceives | phase3/eac_hook.c:276-297 | otherwise it can fail: a run in which the receiving callback's own probe was rejected |
| Relay.HandleClient | phase3/shim.py:362-450 | the cache, the posted report, and the one reply, no reply or uncaught exception of a connection, for every way a step can go |
| Relay.ReplyCases | phase3/shim.py:362-450 | which token or reason is sent, and when none is, over everything a connection can meet |
| Relay.ApprovalNeedsVerdict | phase3/shim.py:440-448 | a reader that approves any prefix of the reply has a posted report with this connection's nonce and the server's yes to it |
| Relay.ApprovedMeansAcceptable | phase3/shim.py:440-448 | if that yes is the serial handler's, the report's nonce was recognised and it passed every check |
| EndToEnd.ApprovalIsPaid | phase3/eac_hook.c:160-181 | the hook approves only a reply that passes on the yes of a server handler |
| EndToEnd.NextKeepsInvariant | phase3/shim.py:394-450 | no step of hook, shim, server or other clients gives a connection a yes that is not of its own report's handler, or charges a connection or handler twice |
| EndToEnd.DeliveriesArePaidFor | phase3/eac_hook.c:209-319 | in every run deliveries map one to one to attest handlers of reports the shim collected, with recognised nonces and passed checks, and those to issues at most 120 seconds old |
| EndToEnd.ConnectionIsHandleClient | phase3/shim.py:362-450 | whatever a connection meets and the server does meanwhile, its steps leave the reply and the cache of `Relay.HandleClient`, with the verdict of its own report's handler |
| DeliveredLog.DeliveredLogIsEnrolledLog | server/main.py:595-600 | with harmless collections and one enrolment at a time, a delivery whose handler saw a pin is about the log with that root, exactly on equal colon counts, or a collision or a node used as leaf is at hand |
| DeliveryExample.DeliveryFollows | phase3/eac_hook.c:270-319 | from any state, a connection that collects a report the server would accept ends with its callback handed to the runtime |
| DeliveryExample.DeliveryOccurs | phase3/eac_hook.c:270-319 | a run under strict policy, with a baseline enrolled before, in which that happens |

## Left out

- Hook.HookLibrary.HookCallback: requires that the capacity computed for the hex text is not zero, which excludes the message lengths 2^63 - 2 and 2^64 - 2; there the C code writes outside an empty buffer and has no defined behaviour to model.
- ServerBlocks.SuccessesHaveOwnIssues: a block is atomic and always commits; a request killed between two blocks is a handler that never moves on.
- EndToEnd.DeliveriesArePaidFor: a hook call takes effect when its query returns; the order in which two game threads write the hook's globals is not modelled.
- SHA-256, base64, X.509 parsing, `tpm2_quote`, `tpm2_checkquote`, `tpm2_readpublic`: foreign code, parameters here.
- Sockets, HTTP, `sudo cat`, `dlsym`, temporary directories, logging: only their outcomes appear, as arguments of the steps.
- SQLite and its failures (a locked database inside `/enroll`), WAL mode, and the columns `created_at` and `registered_at`, which nothing reads; `pcr_json` is taken to be the map it encodes.
- The wording of rejection reasons: a reason is a constructor, and the reply printer is treated for every reason text.
- The session token and its expiry, which the server never looks at again; tokens and reasons of `EndToEnd` are strings, as the server sends them.
- Case mapping outside ASCII in `lower()`: exact for every root that passes the base 16 check, not for PCR strings holding letters of other scripts.
- `fromisoformat` on texts that `isoformat` does not print in UTC: the table never holds one.
- Report fields nothing reads (version, timestamp, handshake), `/health`, automatic registration, `demo_game`, `fake_game.c`, `eos_stub.c`, `agent/pcr_reader.py` and `agent/report.py`: they would add only easy members.

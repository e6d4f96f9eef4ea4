# Fantasy football engine: verified models

This project models the parts of the engine whose correctness is not visible from one function body, and
proves what they promise, with Dafny 4.11. `dafny verify dfyconfig.toml` checks everything. Paths below are
relative to the root of the repository.

Each method follows a piece of the engine's code branch by branch and is proved equal to a specification
function; the lemmas are about those functions, for every input, every interleaving or every history. What
an operation computes is also stated apart from its own functions, by relations over code points, words,
bits, literals or table rows that leave it no other result.

**Text on byte budgets.** Text is a sequence of bytes, with runes as in section 3 of RFC 3629.
`Utf8`, `Whitespace`, `Seqs` and `Basics` hold what the others share: a rune decoder for any bytes, validity,
`strings.TrimSpace`, and the *ink* of a text (the text without its whitespace runes).
`Truncate` is the rune-boundary truncation. `Sentences`, `HardSplit` and `SplitLong` are the chunk
splitter; `Conservation` proves what it keeps and its cap, `Greedy` that its packing is greedy and optimal.
`Headings` is the walk that makes chunks from an article, and `Words` follows the words of an article through
all of this. `Embed` is the embedding client's retry loop.

**Near duplicates.** `Simhash` is the fingerprint with 64-bit words as integers and the token hash as an
arbitrary function. `Dedup` is the staged duplicate check over a table that also changes between batches.
`SportFilter` is the whole-word scan for other sports.

**Shared state, interleavings and crashes.** `Scheduler`, `Publisher` and `Cache` are transition systems
with one step per stretch of code that holds a lock; a history is any legal sequence of steps by any number
of goroutines. Each module has a class whose small methods each make exactly one step of its transition
system, and whose longer methods are put together from those, in the source's order. `Publisher` also runs
inside `Scheduler`, and `CorpusSync` is what a publish compares and copies. `FlexCodec` and `CacheCodec`
are the lenient JSON decoders and their round trip through the cache; `Decoding` says what a response of any
type decodes to, without the decoders. `Migrations` is the migration tracker
when every daemon start may die after any number of writes.

**Logs and evidence across publishes.** `ChangeLog` is the capped JSONL log at the level of bytes,
`Evidence` the partition of evidence records by status, both over any number of publishes. `Publishes`
joins `Evidence` to `CorpusSync`, with the text of the dated index: when does a publish sync at all?

Results that differ from what the code or its comments suggest:

- `HardSplit.DropsUnderTwoByteBudget`: runes are dropped well before the one-byte fallback the comment
  at internal/htmlx/chunk.go:178-180 speaks of. `HardSplit.LosslessIff` gives the exact condition.
- `SportFilter.RepeatedKeywordReported`: the scan reports "mlb" in "mlbmlb", which holds no whole word.
- `CacheCodec.ZeroInstantLost`, `CacheCodec.AbsentListFilled`, `FlexCodec.LargeIntegerChanges`: the three
  ways a decoded value of a cache hit differs from the miss. A fourth concerns text only:
  `CacheCodec.SettingsTextChanges`, where a member of a settings object is printed differently.
- `Cache.EvictionCanRace`: a get can delete an entry another get has just stored; no stale value results.
- `Migrations.FirstCrashSkipsTheRest`: a first start that dies between running and recording the first
  file makes the next start mark every file as applied without running it. `Migrations.SkippedIff` says
  exactly when this happens.
- `Publishes.QuietIff`: a publish finds nothing to sync only when its evidence index was generated in the
  same second as the last synced one (and nothing else has changed or been left behind), because every
  render is dated. So, by `Publishes.LaterIsMaterial` and `Publishes.ComparisonIsIdle`, from one second to
  the next the comparison never holds a publish back. `Publishes.UnchangedContentSyncsAgain` is a history of
  two runs that differ in that second only.
- `Publishes.AgedOutIsLeftBehind`: apart from the date, an evidence record that is older than 90 days and
  not rendered again stays in the corpus, so every later publish differs from it.
- `Evidence.StaleHappens`: after a gap of 91 days between two syncs the corpus shows as current a record
  the last run did not render. `Evidence.TruthfulIff` says exactly when a sync leaves the statuses right,
  and `Publishes.PunctualIsTruthful` that publishes at most 76 days apart suffice.
- `Publisher.CorpusIsMixed`: a sync that fails or panics half-way leaves a mixture of the old and the new
  corpus. `Publisher.CompletedSyncRepairs` says which damaged files a later sync repairs.
- `Embed.OnePerTextIff`: a batch request returns as many vectors as the server sent, not one per text.
- `ChangeLog.TailKeepsWholeEntries`: an entry that would fit the cap to the byte is dropped too, and no
  bound on the length of a line is needed.

## Model

| member | source | states |
|---|---|---|
| Utf8.RuneAtIff | internal/htmlx/chunk.go:183-187 | a rune is decoded exactly where the encoding of some code point stands, and all of it; so for malformed bytes too |
| Whitespace.LeadSpaceIff | internal/htmlx/chunk.go:62-62 | a text starts with whitespace if and only if it starts with the encoding of one of the code points of unicode.IsSpace, which is then removed whole |
| Whitespace.TailSpaceIff | internal/htmlx/chunk.go:62-62 | the same at its end |
| Whitespace.TrimSpaceMeans | internal/htmlx/chunk.go:196-200 | trimming gives the stretch between two stretches of whitespace runes, and neither end of it is whitespace |
| Whitespace.JoinAt | internal/htmlx/chunk.go:62-62 | in joined parts every part stands at its offset, behind exactly one blank |
| Truncate.TruncateRunes | internal/util/util.go:52-64 | the loop computes `Truncated`, which the next four rows describe |
| Truncate.TruncatedIffLongest | internal/util/util.go:47-64 | the result is the longest prefix within the limit that ends at a rune start or at the end of s, and nothing else is |
| Truncate.NestedTruncation | internal/util/util.go:52-64 | truncating to a and then to b is truncating to the smaller of the two, for all byte strings and limits |
| Truncate.TruncatedValid | internal/util/util.go:47-64 | on valid UTF-8 the result is valid and a cut loses at most three bytes of the limit |
| Truncate.TruncatedRest | internal/util/util.go:47-64 | what a truncation of valid text leaves behind is valid too |
| Sentences.SplitSentences | internal/htmlx/chunk.go:209-228 | the loop over the leftmost matches computes `SentencesOf` on every byte string |
| Sentences.CutsIff | internal/htmlx/chunk.go:205-228 | the text is cut at a place if and only if ".", "!" or "?" and then only blanks stand in front of it and no blank behind it |
| Sentences.SentenceAt | internal/htmlx/chunk.go:213-228 | the n-th sentence is the trimmed stretch between two neighbouring cuts; only a blank last one is left out |
| Sentences.NextMatchIsLeftmost | internal/htmlx/chunk.go:205-210 | matches are found left to right without skipping one |
| Sentences.PiecesAreTheText | internal/htmlx/chunk.go:214-227 | before trimming, the pieces joined up are the text |
| Sentences.SentencesKeepInk | internal/htmlx/chunk.go:207-228 | for valid text the sentences hold every non-whitespace rune, in order |
| Sentences.SentencesComplete | internal/htmlx/chunk.go:207-228 | no sentence still contains sentence-ending punctuation followed by whitespace |
| Sentences.SentencesNonEmpty | internal/htmlx/chunk.go:209-228 | no sentence of a non-empty text is empty |
| HardSplit.HardSplitSentence | internal/htmlx/chunk.go:168-192 | terminates on every byte string and prefix; the sub-chunks carry heading, prefix, one blank and a piece of `HardBodies` at the budget max(1, 6000 - len(prefix) - 1) each |
| HardSplit.HardBodiesKeep | internal/htmlx/chunk.go:164-192 | pieces of valid text are valid and join up to the sentence with exactly the runes wider than the budget removed |
| HardSplit.HardBodiesFit | internal/htmlx/chunk.go:168-192 | every piece, of any bytes, has between 1 and budget bytes |
| HardSplit.HardBodiesGreedy | internal/htmlx/chunk.go:168-192 | if no rune is wider than the budget, every piece is the longest prefix of the rest that ends at a rune and fits the budget |
| HardSplit.PiecesAreFull | internal/htmlx/chunk.go:168-192 | so behind a prefix of at most 5995 bytes every sub-chunk but the last has 5997 to 6000 bytes |
| HardSplit.TinyPieces | internal/htmlx/chunk.go:172-175 | behind a prefix of 5998 bytes and more every piece is a single byte |
| HardSplit.LosslessIff | internal/htmlx/chunk.go:168-192 | nothing is lost if and only if no rune is wider than the budget; so never with a prefix of at most 5995 bytes |
| HardSplit.DropsUnderTwoByteBudget | internal/htmlx/chunk.go:177-187 | with a prefix of 5997 bytes an em dash is dropped, at a budget of two |
| SplitLong.AppendChunk | internal/htmlx/chunk.go:196-202 | appends one chunk with the trimmed text, or none when nothing is left of it |
| SplitLong.SplitOne | internal/htmlx/chunk.go:119-162 | the loop with its string builder computes the recursive packing of the sentences of the body; every sub-chunk has the heading, the prefix (the heading if there is none), one blank and a body |
| SplitLong.SplitLongChunks | internal/htmlx/chunk.go:105-115 | chunks at or under the cap stay, the others are replaced by their sub-chunks, in order |
| Conservation.SplitOneUnderCapIff | internal/htmlx/chunk.go:117-162 | sub-chunks stay within 6000 bytes, for malformed text too, if and only if the prefix has at most 5998 bytes or there are none |
| Conservation.SplitLongUnderCap | internal/htmlx/chunk.go:102-115 | with prefixes of at most 5998 bytes every output is within 6000 bytes |
| Conservation.SplitLongIdempotent | internal/htmlx/chunk.go:102-115 | and splitting twice is splitting once |
| Conservation.PackKeepsInk | internal/htmlx/chunk.go:131-161 | from any state of the packing loop, what comes out holds the builder's text and the remaining sentences, rune for rune, if and only if no hard split drops a visible rune |
| Conservation.SplitOneKeepsInkIff | internal/htmlx/chunk.go:119-192 | the sub-chunk bodies hold the visible runes of the body in order if and only if no oversized sentence has a visible rune wider than the budget; always with a prefix of at most 5995 bytes |
| Conservation.SplitLongKeepsInk | internal/htmlx/chunk.go:105-162 | over a list of chunks no visible rune is lost, reordered or moved to another heading |
| Greedy.PackIsGreedy | internal/htmlx/chunk.go:136-160 | the streaming loop makes the same bodies as a greedy grouping of the sentences |
| Greedy.GroupsLegal | internal/htmlx/chunk.go:136-160 | that grouping covers the sentences in order, hard-splits exactly the oversized ones, and every packed group fits the cap |
| Greedy.NeverClosedEarly | internal/htmlx/chunk.go:147-152 | a group ends before an ordinary sentence only when that sentence would not have fitted |
| Greedy.PackedIsJoin | internal/htmlx/chunk.go:146-160 | a packed sub-chunk has exactly its sentences for a body, joined by one blank each |
| Greedy.GreedyIsOptimal | internal/htmlx/chunk.go:136-160 | no legal grouping of the sentences has fewer groups |
| Greedy.SplitOneIsGreedy | internal/htmlx/chunk.go:119-162 | so the sub-chunks of a chunk are those of an optimal legal grouping of its body's sentences |
| Headings.Splitter.Flush | internal/htmlx/chunk.go:54-72 | the closure's effect on chunks, heading and parts; the text is `Join` of the parts, which `Whitespace.JoinAt` describes |
| Headings.Splitter.Visit | internal/htmlx/chunk.go:74-85 | a heading flushes and becomes the current one, other visible text is collected |
| Headings.SplitByHeadings | internal/htmlx/chunk.go:39-100 | the whole walk, with the single-chunk fallback, computes `SplitByHeadingsOf` |
| Headings.WalkKeepsInk | internal/htmlx/chunk.go:54-86 | from any state of the walk, the flushed chunks hold what was pending and what the nodes add, under its headings |
| Headings.FlushesIffText | internal/htmlx/chunk.go:54-90 | a chunk is flushed if and only if some node outside the headings has visible text, and then all of that text is flushed |
| Headings.ArticleConserved | internal/htmlx/chunk.go:35-92 | the final chunks hold exactly the visible non-heading text, in order, under the nearest preceding heading, within the cap |
| Headings.ArticleInContext | internal/htmlx/chunk.go:54-72 | every final chunk carries the title, behind " > " its heading if it has one, then one blank and its text |
| Headings.FallbackConserved | internal/htmlx/chunk.go:94-100 | an article without text outside its headings, or one that cannot be parsed, comes out as its visible extracted text under no heading, within the cap |
| Words.SentencesKeepWords | internal/htmlx/chunk.go:205-228 | splitting valid text into sentences cuts no word |
| Words.PackKeepsWords | internal/htmlx/chunk.go:131-161 | from any state of the packing loop the bodies hold the words of the builder, of the ordinary sentences and of the hard-split pieces, whole and in order |
| Words.SplitOneKeepsWords | internal/htmlx/chunk.go:119-162 | so the sub-chunks hold the words of the body, whole and in order, unless a sentence is hard-split |
| Words.HeadingsKeepWords | internal/htmlx/chunk.go:54-92 | the flushed chunks hold the words of the non-heading nodes, whole, in order and under the nearest preceding heading |
| Words.ArticleKeepsWords | internal/htmlx/chunk.go:35-92 | and so do the final chunks, unless a sentence is hard-split |
| Embed.Client.Post | internal/embed/client.go:128-136 | one request with every text capped at 7000 bytes |
| Embed.Client.Embed | internal/embed/client.go:78-99 | the retry loop sends the requests of `Run` and ends with its outcome, which are related as in the next row |
| Embed.HalvingIsRun | internal/embed/client.go:78-99 | the requests and the outcome of a call are the only ones such that the first text is the input within 7000 bytes, each further one the longest rune-boundary prefix of the one before within half its length, every one but the last was rejected for its size and longer than 64 bytes, the last was not both, and its reply is the outcome |
| Embed.Client.EmbedBatch | internal/embed/client.go:105-126 | one batch request, whose vectors are returned as the server sent them and whose other errors are final; the fallback when it is rejected for its size |
| Embed.Client.EmbedEach | internal/embed/client.go:116-125 | the fallback loop, text by text, stopping at the first error |
| Embed.EmbedBounded | internal/embed/client.go:74-99 | between one and eight requests; the k-th (from zero) carries a rune-boundary prefix of the input of at most 7000 halved k times bytes, valid if the input is |
| Embed.EmbedSucceeds | internal/embed/client.go:74-99 | if the server takes every text of at most 64 bytes and rejects others for size only, Embed succeeds |
| Embed.ResultIsLastReply | internal/embed/client.go:80-87 | the vector returned is the first of the reply to the last text sent |
| Embed.EachAnswers | internal/embed/client.go:117-125 | the fallback's vectors are one per text, in order, each an answer to a rune-boundary prefix of its text |
| Embed.EachSentBounded | internal/embed/client.go:117-125 | the fallback sends at most eight requests per text |
| Embed.BatchFallback | internal/embed/client.go:101-126 | a rejected batch of n texts costs at most 1 + 8n requests and yields n vectors in order, or an error |
| Embed.FallbackFails | internal/embed/client.go:117-125 | when the fallback fails it is with the failure of one text, whose requests are the last ones sent |
| Embed.OnePerTextIff | internal/embed/client.go:101-126 | what EmbedBatch returns has one vector per text if and only if the request was rejected for its size or the one reply had that many |
| Embed.FallbackSucceeds | internal/embed/client.go:101-126 | with such a server one oversized text does not sink the rest |
| Simhash.AddVotes | internal/pipeline/simhash.go:30-36 | one token adds one to the counter of every bit it has and takes one from the others |
| Simhash.CountVotes | internal/pipeline/simhash.go:26-37 | the nested loops compute every counter |
| Simhash.SimhashCompute | internal/pipeline/simhash.go:20-52 | the fingerprint is the signed view of the majority bits: a bit is set if and only if more than half of the tokens have it, and one token alone gets its hash |
| Simhash.FingerprintBits | internal/pipeline/simhash.go:39-44 | a bit is set if and only if the tokens' votes on it are positive |
| Simhash.MajorityHasBit | internal/pipeline/simhash.go:20-52 | a bit of the fingerprint is set if and only if more than half of the positions hold a token whose hash has it |
| Simhash.SingleToken | internal/pipeline/simhash.go:20-52 | the fingerprint of one token is its hash |
| Simhash.BitsMakeWord | internal/pipeline/simhash.go:30-36 | a word is the sum of its bits, bit i weighing 2^i |
| Simhash.MaskToSigned | internal/pipeline/simhash.go:45-51 | the final masking in wrapping arithmetic returns its argument |
| Simhash.MaskIsIdentity | internal/pipeline/simhash.go:45-51 | the final masking in wrapping arithmetic changes no fingerprint |
| Simhash.VotesMove | internal/pipeline/simhash.go:26-37 | a counter moves by at most the number of tokens removed plus those added |
| Simhash.FlipNeedsLowMargin | internal/pipeline/simhash.go:26-44 | a bit flips only if its counter was that close to changing sides |
| Simhash.SimhashIsLocal | internal/pipeline/simhash.go:18-52 | so two fingerprints differ in at most as many bits as have such a counter |
| Simhash.ReplacementIsLocal | internal/pipeline/simhash.go:18-52 | replacing k tokens flips at most the bits whose counter v has -2k < v <= 2k |
| Simhash.OrderIrrelevant | internal/pipeline/simhash.go:18-52 | the fingerprint does not depend on token order |
| Simhash.RepetitionIrrelevant | internal/pipeline/simhash.go:18-52 | nor on repeating the whole list |
| Simhash.ClearLowest | internal/pipeline/simhash.go:58-61 | x & (x - 1) is smaller than x and has exactly one set bit less |
| Simhash.OnesOfXor | internal/pipeline/simhash.go:56-61 | the set bits of the exclusive or are the differing positions |
| Simhash.HammingDistance | internal/pipeline/simhash.go:54-63 | the result is the size of the set of differing positions among all 64, in as many passes, whatever the signs |
| Simhash.DistanceIsMetric | internal/pipeline/simhash.go:54-63 | zero only for equal inputs, symmetric, at most 64, triangle inequality |
| Dedup.Checker.FetchUnchecked | internal/pipeline/dedup.go:52-57 | distinct rows without a score, newest first, at most `limit`, none newer left out |
| Dedup.Checker.ReadBatch | internal/pipeline/dedup.go:52-80 | those rows, each of them readable, or an error that has a failing query or an unreadable row among them as its cause |
| Dedup.Checker.QueryExact | internal/pipeline/dedup.go:87-92 | an older row of the same source with the same URL hash, or none |
| Dedup.Checker.QueryNear | internal/pipeline/dedup.go:126-130 | all older rows of the same source that have a fingerprint, in some order |
| Dedup.Checker.Nearest | internal/pipeline/dedup.go:185-194 | a chunk of an older row of another source, the nearest one when the search is exact |
| Dedup.Checker.CheckNearDup | internal/pipeline/dedup.go:125-151 | marks the row iff some candidate is within three bits |
| Dedup.Checker.CheckSemanticDup | internal/pipeline/dedup.go:179-212 | marks the row iff some chunk pair is closer than the threshold |
| Dedup.Checker.CheckItem | internal/pipeline/dedup.go:85-118 | the first of the three stages with an older match decides; with no failing read the verdict is `Verdict` |
| Dedup.Checker.CheckBatch | internal/pipeline/dedup.go:50-122 | one allowed Batch event; every decision has an older row as its reason, without failing reads each row gets the verdict of the first relation some older row stands in; marks are stored unless the update fails and no other score changes; the counters are the numbers of rows with each verdict; an error only when the query fails or a row cannot be read, and then nothing is decided |
| Dedup.SkippedStage | internal/pipeline/dedup.go:87-118 | a stage skipped because the row lacks its data could not have matched |
| Dedup.RepeatsIff | internal/pipeline/dedup.go:87-205 | the reason for a mark is an older row with the same source and URL hash, with the same source and at most three differing fingerprint bits, or with another source and a chunk at a distance below 0.12 |
| Dedup.DecidedIff | internal/pipeline/dedup.go:85-118 | the verdict is the first of the three relations that holds, and only that |
| Dedup.WitnessesAreOlder | internal/pipeline/dedup.go:85-121 | in every history of arrivals, revisions, enrichment and batches each marked row has a recorded, strictly older row |
| Dedup.MarksHaveCause | internal/pipeline/dedup.go:85-121 | and that row was named by a decision of a batch of the history with that verdict, and did satisfy the stage's test at that moment |
| Dedup.EarliestNeverMarked | internal/pipeline/dedup.go:85-121 | a row no other is older than is never marked |
| Dedup.TrailEndsUnmarked | internal/pipeline/dedup.go:85-121 | following recorded rows goes strictly back in time, takes at most as many steps as there are older rows, and ends at an unmarked one |
| Dedup.DescentReachesUnmarked | internal/pipeline/dedup.go:85-121 | so in every history every row leads to an unmarked row no younger than itself |
| Dedup.NearDrift | internal/pipeline/dedup.go:142-149 | along a trail of near-duplicate marks, whatever the rest of the table, the fingerprint drifts by at most three bits per step |
| SportFilter.ContainsWord | internal/pipeline/sportfilter.go:33-48 | the re-slicing loop terminates for non-empty words and computes `Scan` on the uncut text |
| SportFilter.Round | internal/pipeline/sportfilter.go:36-45 | one round: the first place of the word in the rest of the text, and whether both its neighbours are boundaries |
| SportFilter.ScanSound | internal/pipeline/sportfilter.go:31-48 | yes only for a whole word or for a copy directly behind another copy, with a boundary after it |
| SportFilter.NeverMissed | internal/pipeline/sportfilter.go:31-48 | a whole-word occurrence of a word of letters is never missed |
| SportFilter.RepeatAccepted | internal/pipeline/sportfilter.go:46-46 | a copy behind a copy is always accepted when the word cannot overlap itself |
| SportFilter.ContainsWordIff | internal/pipeline/sportfilter.go:31-48 | for such words the answer is yes if and only if one of the two occurs |
| SportFilter.WholeWordSearchIff | internal/pipeline/sportfilter.go:31-48 | the scan is the promised whole-word search exactly on texts where no such repeat occurs or the whole word occurs anyway |
| SportFilter.RepeatedKeywordReported | internal/pipeline/sportfilter.go:31-48 | "mlbmlb" is a text where it is not |
| SportFilter.IsNonFootballSport | internal/pipeline/sportfilter.go:18-29 | true if and only if one of the six keywords stands in the lowered title and content with no letter behind it and no letter, or another copy of it, in front |
| SportFilter.FilterIff | internal/pipeline/sportfilter.go:9-29 | for each keyword that is: it stands there as a whole word or ends a run of letters behind another copy |
| Scheduler.Scheduler.RegisterStep | internal/scheduler/scheduler.go:85-89 | the step map after registering |
| Scheduler.Scheduler.AddJob | internal/scheduler/scheduler.go:92-108 | a cron entry that captures the registered function; with an unknown step or a schedule cron rejects, an error and no change |
| Scheduler.Scheduler.TriggerStep | internal/scheduler/scheduler.go:195-215 | a cancelled caller or an unknown step starts nothing; otherwise one goroutine with the registered function |
| Scheduler.Scheduler.TryBegin | internal/scheduler/scheduler.go:113-120 | raises the flag, or ends the run when it is up |
| Scheduler.Scheduler.RecordStatus | internal/scheduler/scheduler.go:141-166 | writes the status of the run that has returned |
| Scheduler.Scheduler.Clear | internal/scheduler/scheduler.go:121-125 | the deferred release |
| Scheduler.Scheduler.RunJob | internal/scheduler/scheduler.go:110-180 | undisturbed, a run leaves the flags as they were and records "ok" for a nil error and "error" for an error or a panic; a Goexit or a raised flag records nothing |
| Scheduler.AlwaysExclusive | internal/scheduler/scheduler.go:110-167 | in every interleaving a name is flagged exactly while one run of it is active |
| Scheduler.OneRunPerName | internal/scheduler/scheduler.go:113-125 | two active runs never share a name, and the running map is the set of active names |
| Scheduler.StatusTracks | internal/scheduler/scheduler.go:138-166 | the status map lags only while a run has returned and not yet written |
| Scheduler.StatusIsLatest | internal/scheduler/scheduler.go:121-166 | whenever no run of a name is active, its status is that of its last finished run |
| Scheduler.FewOwnSteps | internal/scheduler/scheduler.go:110-167 | a run stays active for at most two of its own steps, whatever the others do |
| Scheduler.NeverStuck | internal/scheduler/scheduler.go:110-180 | its next step is always allowed, for every outcome of the step function, and its last frees the name |
| Scheduler.FreeNameStarts | internal/scheduler/scheduler.go:113-120 | a trigger starts if and only if no active run has its name |
| Scheduler.OnlyRegisteredRun | internal/scheduler/scheduler.go:92-108 | every goroutine, from cron or a trigger, runs a function registered under its step |
| CorpusSync.WalkDir | internal/corpus/publish.go:327-378 | the recursive walk, with its skipped directories and names, lists exactly the substance files below a directory, with their contents |
| CorpusSync.ListSubstanceFiles | internal/corpus/publish.go:317-325 | so listSubstanceFiles gives the substance files of the tree |
| CorpusSync.MaterialChanges | internal/corpus/publish.go:230-260 | counts plus digests of the staged files decide equality of the substance files exactly, given no digest collision; a corpus that cannot be listed or a staged file that cannot be compared counts as a change, and the branch for an empty listing is never taken, since the staging tree is in it |
| CorpusSync.QuietAfterSyncIff | internal/corpus/publish.go:230-308 | after a sync of one render another is not material if and only if each of its substance files is as the first left it or as the corpus had it, and it lacks none of theirs |
| CorpusSync.SyncTwice | internal/corpus/publish.go:262-308 | syncing twice is syncing once, and of two syncs the later wins file by file |
| CorpusSync.ProtectedSurvive | internal/corpus/publish.go:357-378 | no sync touches a protected file |
| Publisher.Publisher.PrepareStagingDir | internal/corpus/publish.go:100-122 | succeeds iff one of three removals succeeds before any error but ENOTEMPTY, and the directory can be made; one Clear step |
| Publisher.Publisher.TryLock | internal/corpus/publish.go:50-53 | the TryLock step: takes a free lock, or ends the call |
| Publisher.Publisher.DecideSync | internal/corpus/publish.go:61-83 | the Decide step: syncs iff the render is valid, a commit is wanted and the comparison says changed |
| Publisher.Publisher.CopySubstance | internal/corpus/publish.go:282-291 | the copy loop in any order: fails iff some file fails, else the corpus is overridden by the files; after a failure every file is the old one, the new one or the damaged one |
| Publisher.Publisher.CopyExtras | internal/corpus/publish.go:293-306 | the extras present in staging are copied, failures are only logged |
| Publisher.Publisher.Sync | internal/corpus/publish.go:262-308 | fails iff a tree cannot be opened or a substance file fails; success gives `Synced` up to failed extras; nothing is deleted |
| Publisher.Publisher.PublishLocked | internal/corpus/publish.go:55-83 | the critical section, made of the steps: exactly which result, and what each leaves in staging and corpus |
| Publisher.Publisher.Publish | internal/corpus/publish.go:49-83 | a busy publisher changes nothing; otherwise exactly which result under which conditions; the lock is afterwards as it was on every path |
| Publisher.ExpectedIff | internal/corpus/publish.go:55-83 | for each result the exact condition on removals, validation, dry run, the two trees, readability and copies |
| Publisher.AtMostOneInside | internal/corpus/publish.go:45-83 | in every interleaving at most one caller is between prepareStagingDir and finalizePublish |
| Publisher.FreeUnlessHeld | internal/corpus/publish.go:50-53 | the lock is free unless a caller is still on its way out |
| Publisher.LosersTouchNothing | internal/corpus/publish.go:50-52 | steps of a caller without the lock change neither tree |
| Publisher.OthersLeaveTrees | internal/corpus/publish.go:45-83 | and nobody else changes either tree of the caller past the lock |
| Publisher.StagingIsOwnRender | internal/corpus/publish.go:45-65 | the staging tree of the caller inside is exactly its own render |
| Publisher.SyncIsAtomic | internal/corpus/publish.go:208-228 | when a sync ends the corpus is the one the run found, overridden by that run's complete own render, up to extras whose write failed |
| Publisher.CorpusMovesOnlyInSync | internal/corpus/publish.go:210-228 | no step but a sync step of the lock holder changes the corpus |
| Publisher.CorpusIsMixed | internal/corpus/publish.go:262-308 | at every step of every history, after failed copies, unopened trees and panics too, each corpus file is the one the last sync found, that run's own, or as its failing copy left it; none is lost |
| Publisher.UndamagedIsProper | internal/corpus/publish.go:282-306 | over any history a file whose last copy was not cut off is exactly as the copying run rendered it, or as at the start |
| Publisher.CompletedSyncRepairs | internal/corpus/publish.go:282-306 | a completed sync leaves damaged exactly the files that were and that it does not render, up to extras it misses |
| Publisher.CallersAreRunning | cmd/fantasy-football-engine/main.go:415-461 | under the scheduler, whoever is inside Publish is an active run of a publish step |
| Publisher.LockBelongsToActiveRun | cmd/fantasy-football-engine/main.go:415-461 | so a held lock belongs to a flagged name and never outlives its run |
| Publisher.DistinctNamesOverlap | cmd/fantasy-football-engine/main.go:165-169 | a cron job and a "manual:" trigger do reach Publish at the same time under different names |
| Cache.Client.SweepExpiredLocked | internal/sleeper/client.go:118-127 | keeps exactly the entries that are not past their expiry |
| Cache.Client.Receive | internal/sleeper/client.go:83-104 | the fetch step: a body that arrives and can be stored, or the end of the get with an error |
| Cache.Client.FromCache | internal/sleeper/client.go:70-82 | three or four steps: an entry that is not past its expiry is served and nothing changes, otherwise the path is not in the cache afterwards |
| Cache.Client.Put | internal/sleeper/client.go:102-114 | the Store step: stores, sweeps past 200, and starts over if that is not enough; never more than 200 entries |
| Cache.Client.DoGet | internal/sleeper/client.go:133-160 | a body if and only if within three attempts a 200 comes behind nothing but network errors and other statuses, and then that body at that attempt; otherwise an attempt was no request at all or all three passed |
| Cache.Client.Get | internal/sleeper/client.go:70-116 | undisturbed: a fresh entry is served and nothing changes; otherwise it is evicted, the first 200 within three attempts is served and stored if it can be, and every error stores nothing |
| Cache.CacheIsBounded | internal/sleeper/client.go:102-114 | in every interleaving at most 200 entries at every step |
| Cache.StoreOutcome | internal/sleeper/client.go:103-113 | a store keeps every live entry and its own, unless more than 200 are live: then it drops all |
| Cache.AlwaysGenuine | internal/sleeper/client.go:70-116 | every entry, in the cache or in a reader's hands, was fetched for its path and stored with that data |
| Cache.HitIsRecent | internal/sleeper/client.go:70-77 | a hit serves data fetched for the same path and stored less than five minutes before the expiry check |
| Cache.HitServesFetchedValue | internal/sleeper/client.go:70-104 | and decodes to what that fetch decoded, exactly when the value survives the codec |
| Cache.EvictionCanRace | internal/sleeper/client.go:75-82 | for every path there is an interleaving in which a get deletes an entry that is still fresh |
| FlexCodec.AnySurvives | internal/sleeper/client.go:90-103 | a document decoded as `any` is printed and decoded again unchanged |
| FlexCodec.SoundIsPossible | internal/sleeper/client.go:57-67 | the assumptions about float64 and time printing can be met together, by a library that prints every time, reads some strings as numbers and rounds 2^53 + 1 to 2^53 |
| FlexCodec.DecodeStringSlice | internal/sleeper/helpers.go:174-199 | the list has the text of every string and number that is neither empty nor "<nil>", each behind as many as are kept in front of it, and no others; nil for anything but an array |
| FlexCodec.DecodeIntSlice | internal/sleeper/helpers.go:208-229 | one integer per element, the int64 literal or what the number or string spells, 0 for the rest; an empty list for anything but an array |
| FlexCodec.ListMeansIff | internal/sleeper/helpers.go:174-199 | that list is the only one |
| FlexCodec.EpochMeansIff | internal/sleeper/helpers.go:239-272 | EpochMs takes milliseconds since 1970, as a number or in a string, or RFC 3339 text, and the zero instant for all else |
| FlexCodec.NumberRereads | internal/sleeper/helpers.go:79-97 | a number FlexInt reads as an integer within 2^53 is read the same from the cache, however it was written |
| FlexCodec.IntRereads | internal/sleeper/helpers.go:79-111 | the same for every JSON value FlexInt accepts |
| FlexCodec.LargeIntegerChanges | internal/sleeper/helpers.go:85-90 | 2^53 + 1 is read back as 2^53 |
| CacheCodec.FillViews | internal/sleeper/settings.go:105-121 | the loop fills each typed field with the integer its key's value spells, zero when absent |
| Decoding.DecodeIff | internal/sleeper/helpers.go:45-272 | for every response type and document, decoding gives a value if and only if the document says that value: literals as themselves, strings as the numbers they spell, fields by name and zero when absent, lists entry by entry, nil for null |
| Decoding.SeasonIsRead | internal/sleeper/models.go:142-148 | so a traded pick with the season "2019" has the season 2019 |
| Decoding.EncodesIff | internal/sleeper/client.go:94-99 | a value can be encoded if and only if it holds no infinite float or NaN and no instant without RFC 3339 text |
| Decoding.SmallFits | internal/sleeper/client.go:98-101 | and the encoding of integers within 2^53 can be decoded as `any` if the settings objects can |
| Decoding.FetchIff | internal/sleeper/client.go:90-101 | a fetch serves a value if and only if the document says it and it can be encoded and decoded as `any` |
| CacheCodec.SettingsHit | internal/sleeper/settings.go:95-149 | after the cache the same keys are present, the typed fields are the same and every member has the same value |
| CacheCodec.DecodeTyped | internal/sleeper/helpers.go:45-272 | a decoder only produces values of its type (no empty string in a FlexStringSlice, only doubles in floats) |
| CacheCodec.PointerHit | internal/sleeper/helpers.go:231-285 | a pointer is read back as it was unless it points to the zero instant |
| CacheCodec.HitAgreesIff | internal/sleeper/client.go:57-104 | for every response type and value with integers within 2^53, a hit decodes without error, and to an agreeing value if and only if the value holds no pointer to the zero instant and no absent FlexIntSlice |
| CacheCodec.HitIsMissIff | internal/sleeper/client.go:57-104 | the same from the response body: decode(encode(decode(j))) against decode(j) |
| CacheCodec.StableHitIsMiss | internal/sleeper/client.go:57-104 | for types without EpochMs pointers and FlexIntSlice hit and miss always agree |
| CacheCodec.StableResponses | internal/sleeper/models.go:91-98 | matchups and league settings are such types |
| CacheCodec.ZeroInstantLost | internal/sleeper/helpers.go:274-280 | an unreadable timestamp is a pointer to the zero instant on a miss and nil on a hit |
| CacheCodec.AbsentListFilled | internal/sleeper/helpers.go:208-213 | a FlexIntSlice missing from the document is nil on a miss and empty on a hit |
| CacheCodec.SettingsTextChanges | internal/sleeper/settings.go:123-128 | a member 2^53 + 1 of a settings object has the text 2^53 after the cache, where MarshalJSON alone would keep its text |
| Migrations.Database.RunMigrations | internal/db/db.go:53-146 | both loops, cut off after any number of writes, compute `Run`; they succeed if and only if the budget covers a record for each file of an old database, or a run and a record for each pending file, and then every file is recorded |
| Migrations.HealthyRun | internal/db/db.go:94-143 | one start takes a healthy database to a healthy one that is further, or springs the trap, exactly when it dies after the very first write |
| Migrations.TrackedIsPrefix | internal/db/db.go:115-143 | from a fresh database, without that one crash, the tracked set is always a prefix of the list and files take effect in list order |
| Migrations.RunsAccountedFor | internal/db/db.go:117-143 | a file runs once if recorded, plus once for each start that died between its run and its record |
| Migrations.CompletedIsFixed | internal/db/db.go:94-145 | after a completed run further starts change nothing |
| Migrations.EnoughBudget | internal/db/db.go:117-145 | two writes per pending file complete the run |
| Migrations.TrappedRun | internal/db/db.go:94-113 | from the trap, one backfilled record heals, two or more skip a file |
| Migrations.SkippedForever | internal/db/db.go:94-143 | no later start repairs a skipped file |
| Migrations.ThreeFates | internal/db/db.go:53-146 | every history from a fresh database ends healthy, in the trap, or with a skipped file |
| Migrations.SkippedIff | internal/db/db.go:86-143 | a file is recorded without ever having run if and only if some start backfilled two or more files over a database whose first file had run unrecorded |
| Migrations.FirstCrashSkipsTheRest | internal/db/db.go:94-143 | the two starts that leave seven of the eight files recorded and not run |
| Migrations.OldDatabase | internal/db/db.go:86-143 | an untracked existing database: backfill runs nothing, later starts run exactly the files behind what it recorded, so none of the old ones if and only if it finished |
| ChangeLog.Log.CarryForwardChangeLog | internal/corpus/current_leaguemates_manifest.go:318-334 | the new log is the old one up to 16 MiB, else its last 16 MiB from behind the first newline in them; empty when the old one cannot be read or the new one cannot be written |
| ChangeLog.Log.AppendEvidenceChanges | internal/corpus/current_leaguemates_manifest.go:359-389 | the written entries in order; the cursor follows only successful writes |
| ChangeLog.Log.AppendEvidenceChangeLog | internal/corpus/current_leaguemates_manifest.go:346-401 | added entries then superseded ones, the cursor is the id of the last one written, the count includes failures |
| ChangeLog.LastIdIsCursor | internal/corpus/current_leaguemates_manifest.go:359-389 | the cursor is the id of the last entry that was written, the old one if none was |
| ChangeLog.TailKeepsWholeEntries | internal/corpus/current_leaguemates_manifest.go:336-344 | cutting a log of whole entries leaves exactly the entries from the first on where the rest is smaller than the limit |
| ChangeLog.KeepsAllThatFits | internal/corpus/current_leaguemates_manifest.go:336-344 | from any earlier entry on the log reaches the limit |
| ChangeLog.CarriedEntries | internal/corpus/current_leaguemates_manifest.go:318-334 | what is carried is whole entries of at most 16 MiB |
| ChangeLog.LogIsWhole | internal/corpus/current_leaguemates_manifest.go:316-401 | over any number of publishes the log is the kept suffix of the previous entries followed by this run's |
| ChangeLog.LogIsBounded | internal/corpus/current_leaguemates_manifest.go:311-334 | its size is at most 16 MiB plus the bytes of the run that committed it |
| ChangeLog.LogIsSuffix | internal/corpus/current_leaguemates_manifest.go:311-401 | it is a suffix of everything ever committed |
| ChangeLog.CountJSONLFile | internal/corpus/current_leaguemates_manifest.go:588-600 | the loop counts the lines with visible text, zero for an unreadable file |
| ChangeLog.CountIsEntries | internal/corpus/current_leaguemates_manifest.go:588-600 | in a file of entries that is their number |
| ChangeLog.CountMatchesLog | internal/corpus/current_leaguemates_manifest.go:458-468 | so the manifest's change count is the number of entries in the log, after any history |
| Evidence.LoadExistingRecords | internal/corpus/evidence.go:549-576 | from any directory, a record of the last 90 days or without a known date for every id that has one; from a well-filed one exactly those |
| Evidence.Staging.WriteCurrentRecords | internal/corpus/evidence.go:76-88 | every current record whose write succeeds is staged; `added` lists the ids that are not previous, once each |
| Evidence.Staging.WriteSupersededRecords | internal/corpus/evidence.go:92-106 | previous records that are not current are staged as superseded and listed once each; current files stay; an error iff a write fails |
| Evidence.RenderEvidence | internal/corpus/evidence.go:26-72 | the staged files are those of the current ids and of the retained previous ids, and no other |
| Evidence.DistinctFiles | internal/corpus/evidence.go:79-79 | distinct hash ids have distinct files |
| Evidence.StatusIff | internal/corpus/evidence.go:74-106 | a staged record is current if and only if its id is, and superseded if and only if it is previous and not current |
| Evidence.CountCurrentEvidence | internal/corpus/current_leaguemates_manifest.go:430-455 | counts the files with status current |
| Evidence.CountIsCurrent | internal/corpus/current_leaguemates_manifest.go:430-461 | which is the number of current records, as the summary says |
| Evidence.CorpusIsWellFiled | internal/corpus/evidence.go:48-106 | over any number of publishes every corpus file holds the record its name stands for |
| Evidence.StagedWhileRetained | internal/corpus/evidence.go:544-590 | a committed record stays in the corpus and is staged by every later run at which its copy is inside the window, current or superseded as that run says |
| Evidence.StaleIff | internal/corpus/evidence.go:544-590 | after a sync the corpus shows a record as current that the run did not render if and only if it showed it before and the record had left the window |
| Evidence.TruthfulIff | internal/corpus/evidence.go:74-106 | a sync over a corpus with right statuses leaves them right if and only if every record shown as current is rendered again or still inside the 90 days |
| Evidence.RegularIsTruthful | internal/corpus/evidence.go:212-226 | since only records of the last 14 days are rendered, statuses are right throughout when no two syncs are more than 76 days apart |
| Evidence.StaleHappens | internal/corpus/evidence.go:544-590 | a legal history of two syncs, 91 days apart, after which they are wrong |
| Evidence.PublishedStays | internal/corpus/evidence.go:92-106 | while no run renders it, a committed record stays in the corpus with its date |
| Evidence.AgedOutIsNotStaged | internal/corpus/evidence.go:544-590 | and once it has left the window it is never staged again |
| Publishes.CorpusHoldsEvidence | internal/corpus/publish.go:262-308 | over any history the records under evidence/records of the committed tree are those of the evidence model |
| Publishes.IndexReads | internal/corpus/evidence.go:108-118 | the text of an evidence index determines its counts, its rows and the time it was generated, given that NowISO tells times apart and prints no full stop |
| Publishes.PrintsIsPossible | internal/corpus/common.go:56-58 | that assumption can be met |
| Publishes.QuietIff | internal/corpus/publish.go:230-260 | over any history a run finds no material change if and only if its index is the last synced one, generated in the same second, every other substance file is as last synced, and no file ever synced, or there before the first sync, is missing |
| Publishes.LaterIsMaterial | internal/corpus/publish.go:210-260 | a run whose index is from a later second than the previous run's is material, and syncs if and only if it is valid, wanted and not failing |
| Publishes.ComparisonIsIdle | internal/corpus/publish.go:210-260 | so with one publish a second at most the corpus is what it would be without any comparison |
| Publishes.AgedOutIsLeftBehind | internal/corpus/publish.go:230-308 | from the day a committed record leaves the window, every publish before it is rendered again lacks a committed file, so that it is material whatever its date |
| Publishes.AgedOutSyncsAgain | internal/corpus/publish.go:210-260 | a legal history of two runs in one second with one and the same render, both of which sync, because a record has aged out |
| Publishes.PunctualIsTruthful | internal/corpus/evidence.go:212-226 | the statuses in the corpus are right throughout when the runs that are let through are at most 76 days apart |
| Publishes.UnchangedContentSyncsAgain | internal/corpus/publish.go:210-260 | a legal history of two runs whose renders differ only in the second of the index: both sync; a third in the same second as the second does not |

## Left out

- Article parsing, `ExtractText` and `s.Text()`: goquery is a foreign library; nodes come with their text, whether the document parsed is a parameter.
- Regular expressions: the one in splitSentences is the predicate `MatchAt`; tokenize (internal/pipeline/simhash.go:65-73) only supplies token lists.
- MD5 and SHA-256: an arbitrary token hash in `Simhash`, an arbitrary collision-free digest in `CorpusSync.MaterialChanges`.
- Postgres: queries are filters over a map of rows, a query of the three stages may fail, rows may be unreadable, a vector search may be approximate; SQL text is not modelled. Distances are real numbers, so rounding of 1 - 0.88 is not.
- Concurrent batches in `Dedup`: batches, enrichment and ingest follow one another, as in the combined step at cmd/fantasy-football-engine/main.go:424-441.
- SportFilter.ContainsWord: excludes the empty word, on which the loop at internal/pipeline/sportfilter.go:35-47 need not end; every keyword is non-empty. Lower-casing is a parameter.
- `Simhash`: words are integers with explicit wrap-around instead of machine words.
- `Embed`: the HTTP exchange is a function of the request number and the texts; contexts and timeouts are not modelled, a timeout is one of its errors.
- Telemetry, logging, the one-hour timeout, back-off sleeps and `cron` schedules: time is an integer that never goes backwards.
- Scheduler.Scheduler.RunJob: states the undisturbed run; interleaved runs are the transition system the other rows are about. The `NextRun` field is never set by runJob and is omitted.
- Publisher: the order in which the sections render, schema validation and git, with its own look for changed files, are outside; a render is any sequence of file writes, validation any verdict.
- CorpusSync.MaterialChanges: a subdirectory that cannot be listed is not modelled; only the corpus itself may be unlistable.
- Cache: a get holds one target variable; decoding errors end it without storing, as in the code. Response bodies come from a server that may answer anything.
- FlexCodec.Sound: what the proofs take for granted about float64 rounding and printing (section 6 of RFC 8259), Go's float-to-int conversion, and RFC 3339 (section 5.6) printing and parsing being inverse. `FlexCodec.SoundIsPossible` shows the assumptions are consistent. Negative zero is not modelled. Settings objects agree when keys, typed fields and the values of all members do; their text is compared only in `CacheCodec.SettingsTextChanges`, since which other numbers are printed differently depends on float printing.
- CacheCodec.HitAgreesIff: for integers one direction only (within 2^53 suffices); which larger ones survive depends on float printing. Field names match case-sensitively, and pointers are taken on scalars only.
- Migrations: the SQL files are positions in the sorted list, later releases add files behind, and a file takes effect completely or not at all. Errors of a query are the same as a crash at that point.
- ChangeLog: a failed write of the carried part or of an entry writes nothing; a torn write is not modelled. Marshalled entries start with a brace and contain no raw newline.
- Publishes: the corpus before the first publish holds no index and no records, and a sync copies everything or is not made; what a failed sync leaves behind is the subject of `Publisher.CorpusIsMixed`. Only the evidence index is dated; that other rendered files carry dates too can only add differences.
- Evidence: relevance, topics and Markdown are not modelled. Records are filed under hash ids, as EvidenceID makes them; reads succeed, and `Evidence.RenderEvidence` assumes successful writes (its two halves do not).
- HTTP clients, RSS, LLM calls, MCP handlers, league and market sync, scores, Markdown rendering, secret scanning and configuration: I/O, or no property beyond one function body.

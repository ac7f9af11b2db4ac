# PRISM originality checker: a verified model

PRISM compares a manuscript with reference sources and reports which passages are copied,
paraphrased or translated. This project models its deterministic algorithms and its stateful
bookkeeping in Dafny and proves what they promise, for all inputs and over whole runs. Code that
updates fields, dictionaries or arrays in the program is a class or a method with a loop here, proved
against a function of its inputs; what the program promises is then proved about that function.

| files | part of the program |
|---|---|
| `Tokenizer`, `VerbatimSpec`, `VerbatimMatcher`, `Overlap` | word tokens, the verbatim matcher and its brute-force specification |
| `Matches`, `Aggregation`, `PerSource`, `Rerank` | match records, the report's totals, the rerank stage |
| `OrderedDict`, `EmbeddingCache`, `EmbedCached`, `TtlCache` | insertion-ordered dictionaries, recency, the two caches |
| `Jobs`, `MemoryStore`, `PostgresStore`, `StoreEquivalence` | the two job stores and their equivalence |
| `Executor`, `Uploads`, `JobLifecycle`, `CheckRunner` | the worker layer as a step protocol, upload limits, the runner |
| `RateLimiter`, `UsageQuota`, `CoachBudget` | limiters over whole runs |
| `Sentences`, `Unwrap`, `Document`, `Localization`, `Highlight` | the offset-preserving text path and the highlighted view |
| `NumericGuard`, `CoachFilter`, `Coach`, `BoundaryMatching` | numeric agreement, coaching, boundary scores |
| `Sets`, `Sorting`, `Rounding`, `Clock` | finite sets, stable sorting, rounding to nearest, clock readings |

Conventions. Clock readings are `real` and are passed in; SQL statements are operations on a table keyed
by the primary key; digests used as keys stand for what they are taken of. Percentages are integers in
hundredths, rounded to nearest on exact quotients. Character classes (word, space, digit, case), case
folding, the abbreviation list, the evasion lexicon and the bibliography-heading pattern are parameters.
A dictionary entry shared by reference in the program (a match record annotated by later stages) is an
element of an array that the stages rewrite.

Findings, where the code does not do what its comments or a reader may expect, each with the lemmas or
contracts that state it:

- A copied stretch can lose up to `min_verbatim_words - 1` words at its end, never more: exactly those behind
  a reported run that began before it and ended inside it, up to where another reportable run begins
  (`VerbatimSpec.Coverage`, `VerbatimSpec.UnflaggedIff`, `VerbatimSpec.WholeStretchIsFlagged`; the loss is
  reached for every minimum, `VerbatimSpec.TailCanBeMissed`).
- The coaching filter checks only the first 700 characters of each excerpt, and a verbatim match's excerpt
  has no length limit: text copied from behind the cut can reach the author (`Coach.CutCanLeak`). Refusing
  what copies either cut is as good as refusing what copies either excerpt exactly when every run of eight
  words of an excerpt is a run of one of the cuts, as with excerpts within the limit (`Coach.CutsDecide`,
  `Coach.ShortExcerptsKeepRuns`). The limit of 600 characters a field and the evasion test only refuse more:
  a lost run passes as it stands unless its text is longer than that or reads as evasion
  (`Coach.FilterSuffices`).
- The coaching cache's key ends each part with U+001F. It tells a flag's key from every other exactly when no
  part holds that character; otherwise a card filtered for one flag can be served to another
  (`Coach.FrameIsUniqueIff`, `Coach.TwinServesCopy`).
- A cached embedding call gives something else than the embedder's rows exactly when a plain call was made,
  because the shared cache is switched off or as the fallback, and it failed or gave the wrong number of
  rows (`EmbedCached.Embed`, `EmbedCached.FallbackCanBeWrong`).
- The two stores differ on an update without fields (`StoreEquivalence.UpdateAgrees`). On eviction they agree,
  however the database lists ties, exactly when every evicted insertion is strictly older than every kept
  one; stamps are taken before the lock, so ties and insertions out of stamp order both break it
  (`StoreEquivalence.EvictionAgreesIff`, `StoreEquivalence.TiesCanDiffer`,
  `StoreEquivalence.ReversedStampsDiffer`).
- The documented product of queue places and request cap bounds what waiting checks hold exactly when one
  file may not exceed the request cap (or nothing can wait). It bounds waiting and running checks together
  only while the largest accepted checks on all places and workers fit it; with a worker, a queue and
  requests that reach the cap they do not (`Uploads.QueuedUploadsFit`, `Uploads.ProductBoundsUploads`,
  `Executor.ProductBoundsHeld`).
- A done job can still become an error, exactly when its report lacks the match count that the summary log
  line reads (`JobLifecycle.DoneIsFinalIffCounted`).
- The fixed window admits up to `2 * limit - 1` submissions in an interval of one window, and the advertised
  wait can be a fraction of a second short (`RateLimiter.IntervalBound`,
  `RateLimiter.IntervalBoundIsReached`, `RateLimiter.RetryAfter`).
- A day is granted, for each stretch of its requests that no other day interrupts, up to the cap anew; so a
  clock set back over midnight can break the daily cap, and every cap holds exactly when no day's requests
  are interrupted (`CoachBudget.GrantedIsCappedBlocks`, `CoachBudget.CapHoldsIffContiguous`,
  `CoachBudget.ClockSetBack`).
- Greedy boundary pairing is optimal whenever no boundary of either list stands before a smaller one within
  twice the tolerance, and a list that has such an inversion is mispaired with some ascending list
  (`BoundaryMatching.OptimalForTruesIff`, `BoundaryMatching.OptimalForPredsIff`,
  `BoundaryMatching.UnsortedCanMiss`).
- Rejoining leaves a broken word exactly when two broken words share a letter, and a second pass changes
  something exactly when the one skipped goes on in a way that does not look like wrapping
  (`Unwrap.RejoinLeavesShared`, `Unwrap.UnwrapTwice`, `Unwrap.SecondPassCanRejoinMore`).

## Model

| member | source | states |
|---|---|---|
| Tokenizer.TokenizeTiles | backend/services/plagiarism_matcher.py:133-134 | tokens are non-empty, ordered, disjoint, inside the text, and every word character lies in one |
| Tokenizer.TokensAreWords | backend/services/plagiarism_matcher.py:44-44 | the tokens are exactly the longest stretches of word characters and of single apostrophes between them, in order, with the folded text of each |
| VerbatimMatcher.Configure | backend/services/plagiarism_matcher.py:203-214 | a seed length below one is refused, else kept as given; the minimum run is the larger of seed length and request |
| VerbatimSpec.CommonRunIsMaximal | backend/services/plagiarism_matcher.py:354-360 | the extension is the longest stretch on which document and source agree |
| VerbatimSpec.CommonRunAtLeast | backend/services/plagiarism_matcher.py:341-344 | agreeing on a seed is the same as having a common run of at least its length |
| VerbatimSpec.BestIsFirstLongest | backend/services/plagiarism_matcher.py:348-361 | the naive search over all (source, position) pairs finds the longest run at its earliest place, and nothing only if no word is shared |
| VerbatimMatcher.IndexIsComplete | backend/services/plagiarism_matcher.py:327-337 | a seed is listed under exactly the places it occurs at, in source order then position order |
| VerbatimMatcher.BuildIndex | backend/services/plagiarism_matcher.py:327-337 | the loops over sources and positions build that index |
| VerbatimMatcher.Extend | backend/services/plagiarism_matcher.py:353-360 | the inner loop returns the length of the maximal common run |
| VerbatimMatcher.BestCandidate | backend/services/plagiarism_matcher.py:348-361 | the best indexed candidate is the best of all places; without candidates no run reaches the seed length |
| VerbatimMatcher.VerbatimMatches | backend/services/plagiarism_matcher.py:320-389 | refinement: the index-driven scan reports exactly the matches of the naive scan, whatever the seed length |
| VerbatimMatcher.MatchIsCopy | backend/services/plagiarism_matcher.py:363-386 | each match is verbatim, confident and of similarity one; its excerpt is the named source cut at the reported span, and has the very words of the reported document span, at least the minimum of them |
| VerbatimSpec.HitIsGood | backend/services/plagiarism_matcher.py:363-386 | every reported run is a genuine copy of at least the minimum length, the longest at its start, ties to the earliest place |
| VerbatimSpec.HitsAreDisjoint | backend/services/plagiarism_matcher.py:386-388 | reported runs are in document order and never overlap |
| VerbatimSpec.Coverage | backend/services/plagiarism_matcher.py:339-388 | in a stretch copied from a source an unflagged word can only be one of the last minimum-minus-one words |
| VerbatimSpec.FlaggedIsCopied | backend/services/plagiarism_matcher.py:339-388 | a flagged word belongs to a copied stretch of at least the minimum length |
| VerbatimSpec.UnflaggedIff | backend/services/plagiarism_matcher.py:339-388 | a word of a long enough copied stretch is missed exactly when a reported run that begins before the stretch ends inside it, fewer than the minimum from its end, and no reportable run begins from there up to the word |
| VerbatimSpec.WholeStretchIsFlagged | backend/services/plagiarism_matcher.py:339-388 | a copied stretch is flagged whole exactly when, wherever such a run ends inside it, another reportable run begins |
| VerbatimSpec.TailCanBeMissed | backend/services/plagiarism_matcher.py:386-388 | for every minimum of two or more and any document of twice that less one words: sources on which minimum-minus-one words of a copied stretch stay unflagged |
| VerbatimSpec.TailIsTooShort | backend/services/plagiarism_matcher.py:341-341 | stopping the scan before the end loses no match |
| VerbatimMatcher.SpansAreDisjoint | backend/services/plagiarism_matcher.py:364-386 | reported character spans are non-empty, increasing and disjoint |
| VerbatimMatcher.CoverageOfText | backend/services/plagiarism_matcher.py:364-386 | the coverage bound on characters: such a word lies inside a reported span |
| Overlap.ClipSumCountsCharacters | backend/services/plagiarism_matcher.py:648-650 | against disjoint ranges the summed overlaps count each covered character once |
| Overlap.OverlapRatio | backend/services/plagiarism_matcher.py:644-651 | 0 for an empty span; against disjoint ranges the true share covered, between 0 and 1 |
| Aggregation.BisectLeft | backend/services/plagiarism_matcher.py:624-629 | the insertion point splits ascending starts into those below and those not below |
| Aggregation.TokenRange | backend/services/plagiarism_matcher.py:624-629 | the index range holds exactly the words that begin inside the match span |
| Aggregation.WordsOfMeaning | backend/services/plagiarism_matcher.py:574-584 | a word is collected exactly when it begins inside some match of that kind or band |
| Aggregation.ConfidenceBreakdown | backend/services/plagiarism_matcher.py:137-165 | the share of words inside a match that is not for review, the share inside matches for review only, and the number of matches for review |
| Aggregation.Aggregate | backend/services/plagiarism_matcher.py:560-605 | each total by its meaning: the share inside a verbatim match; inside a translated and no verbatim one; inside a paraphrase and neither; all matched words; the confidence figures; the numbers of matches and of distinct sources |
| Aggregation.Conservation | backend/services/plagiarism_matcher.py:587-605 | words split by kind and words split by confidence both add up to the reported matched words, which are those inside some match |
| Aggregation.PercentagesAgree | backend/services/plagiarism_matcher.py:591-600 | the three rounded kind percentages sum to the similarity within 0.02, the two bands within 0.01 |
| Rounding.NearestError | backend/services/plagiarism_matcher.py:591-592 | a rounded percentage is at most half a hundredth off |
| Rounding.NearestTies | backend/services/plagiarism_matcher.py:591-592 | a quotient half-way between two hundredths goes to the even one |
| Rounding.PercentMeaning | backend/services/plagiarism_matcher.py:591-592 | a percentage is the hundredths nearest to 100 times part by total, ties to even, and 0 of nothing |
| Rounding.Round4Error | backend/pipeline/stages.py:217-217 | four decimals: within half a unit of the fourth, ties to even |
| PerSource.PerSource | backend/services/plagiarism_matcher.py:607-619 | one row for each listed source: the words beginning inside one of its matches and their share; more words first, equals in the order listed |
| PerSource.Credit | backend/services/plagiarism_matcher.py:574-584 | the per-source dictionary holds, for every id, the words of that id's matches |
| PerSource.SourceWithinMatched | backend/services/plagiarism_matcher.py:607-617 | a source is never credited with a word that is not matched |
| PerSource.RowsCoverMatched | backend/services/plagiarism_matcher.py:607-617 | the rows add up to at least the matched words |
| Rerank.ChosenAreStrongest | backend/pipeline/stages.py:184-193 | only paraphrases and translations of similarity within the band and with text on both sides are chosen, each once, most similar first, equals in listed order; those left out for want of budget come after all chosen ones |
| Rerank.RescoredMeaning | backend/pipeline/stages.py:215-219 | each chosen match with a score gets the score cut to [0, 1] and rounded, and is confident exactly when the cut score reaches the cutoff; every other match and field is untouched |
| Rerank.BandsOnlyMoveTheBreakdown | backend/pipeline/stages.py:221-224 | after bands change, refreshing the confidence figures alone yields a fresh aggregation's report |
| Rerank.Rewrite | backend/pipeline/stages.py:215-219 | the loop over chosen matches and scores, in place, stopping at the shorter list |
| Rerank.Run | backend/pipeline/stages.py:195-226 | unchanged when off, idle or without a model; else every chosen match with a score gets what that score earns at the recorded cutoff, or the configured one when none or zero was recorded, and the three confidence figures, and only they, are those of the new bands |
| OrderedDict.MostRecentlyTouched | backend/services/embedding_cache.py:90-101 | the last n keys of the recency order are those after whose last touch fewer than n other keys were touched |
| OrderedDict.BatchEviction | backend/services/embedding_cache.py:93-101 | evicting once after a batch equals evicting after every touch |
| OrderedDict.TouchKeepsLast | backend/services/embedding_cache.py:97-100 | keys already evicted never influence what is evicted later |
| EmbeddingCache.Cache.Get | backend/services/embedding_cache.py:81-87 | one lookup: counted as hit or miss, a hit becomes the most recent |
| EmbeddingCache.Cache.GetMany | backend/services/embedding_cache.py:77-88 | answers what is stored, touches the known keys in order, counts every lookup once |
| EmbeddingCache.Cache.PutMany | backend/services/embedding_cache.py:90-101 | unequal lengths are refused; otherwise the most recent entries stay, each with the last vector given for it, and kept plus evicted are the distinct keys |
| EmbeddingCache.KnownMeaning | backend/services/embedding_cache.py:77-88 | a lookup touches exactly the texts of the batch that are cached, in batch order |
| EmbeddingCache.Cache.Clear | backend/services/embedding_cache.py:107-110 | an empty cache with zeroed counters |
| EmbeddingCache.CachedKeys | backend/services/embedding_cache.py:77-101 | over any history a key is cached exactly when it is among the most recently touched distinct keys |
| EmbeddingCache.CacheIsBounded | backend/services/embedding_cache.py:99-101 | never more entries than configured |
| EmbedCached.MissingMeaning | backend/services/embedding_cache.py:162-167 | each text without a cached vector is asked for exactly once |
| EmbedCached.MissingInOrder | backend/services/embedding_cache.py:162-167 | the missing texts are in the order in which they are first missing |
| EmbedCached.MissingOrder | backend/services/embedding_cache.py:162-167 | the loop collects the missing texts in order of first occurrence |
| EmbedCached.Embed | backend/services/embedding_cache.py:139-181 | from a coherent cache, with other threads at work: which calls are made, in every case; the result is the embedder's own rows exactly when it has one row for each text; the cache stays coherent |
| EmbedCached.FallbackCanBeWrong | backend/services/embedding_cache.py:168-181 | an embedder on which the fallback is taken and its answer is wrong |
| TtlCache.TTLCache.Get | backend/utils/ttl_cache.py:22-32 | a value only while it is present and not too old; expired entries go, live ones become most recent |
| TtlCache.TTLCache.Put | backend/utils/ttl_cache.py:34-39 | stored as most recent, oldest entries dropped beyond the bound |
| TtlCache.PutKeeps | backend/utils/ttl_cache.py:34-39 | what holds of every stored value and its key keeps holding |
| MemoryStore.InMemoryJobStore.Create | backend/worker/store.py:53-60 | a fresh queued record; expired jobs go; of the others exactly those stay that have, with the new one, fewer than the maximum inserted after them, in their order |
| MemoryStore.InMemoryJobStore.Get | backend/worker/store.py:62-72 | no record idle longer than the limit is read; reading an expired one removes it |
| MemoryStore.InMemoryJobStore.Update | backend/worker/store.py:74-81 | sets exactly the given fields and the stamp of the one job; unknown jobs are ignored |
| MemoryStore.InMemoryJobStore.Sweep | backend/worker/store.py:83-91 | deletes the expired records and answers how many |
| MemoryStore.SweptMeaning | backend/worker/store.py:87-91 | a sweep keeps exactly the records that are not expired |
| MemoryStore.CreateIsBounded | backend/worker/store.py:53-60 | after a create at most the configured number of jobs, the new one among them, none expired but possibly the new one |
| MemoryStore.CreateKeepsLatest | backend/worker/store.py:53-60 | a full store gives up its oldest insertions: which jobs a create keeps, by position |
| PostgresStore.PostgresJobStore.Create | backend/worker/postgres_store.py:100-114 | a fresh queued record; expired rows go; of the others as many as allowed stay, none of them older than one deleted |
| PostgresStore.PostgresJobStore.Get | backend/worker/postgres_store.py:116-129 | a row is read exactly when it is there and not idle beyond the limit; an expired one is deleted |
| PostgresStore.PostgresJobStore.Update | backend/worker/postgres_store.py:131-145 | sets exactly the given columns and the stamp of the one row; nothing is sent without fields |
| PostgresStore.PostgresJobStore.Sweep | backend/worker/postgres_store.py:147-153 | deletes the expired rows and answers the row count |
| StoreEquivalence.NewestFirstIsReverse | backend/worker/postgres_store.py:109-113 | with distinct stamps the newest-first listing is insertion order backwards |
| StoreEquivalence.EvictionAgreesIff | backend/worker/postgres_store.py:108-113 | for any stamps: popping the oldest insertions and deleting beyond the offset leave the same jobs for every listing exactly when every evicted insertion is strictly older than every kept one |
| StoreEquivalence.CreateAgreesIff | backend/worker/postgres_store.py:100-114 | the same for a whole create, sweep included |
| StoreEquivalence.EvictionAgrees | backend/worker/postgres_store.py:108-113 | with stamps in insertion order eviction keeps the stores equal, insertion order included |
| StoreEquivalence.CreateAgrees | backend/worker/postgres_store.py:100-114 | a create keeps the two stores equal, however the database breaks ties |
| StoreEquivalence.UpdateAgrees | backend/worker/postgres_store.py:131-145 | updates agree exactly when a field is set, the job is unknown or the clock stands still |
| StoreEquivalence.StoresAgree | backend/worker/store.py:33-38 | no run of creates with fresh ids and increasing stamps, reads, updates that set something, sweeps and size queries tells the two stores apart |
| StoreEquivalence.TiesCanDiffer | backend/worker/postgres_store.py:108-113 | with equal stamps a legal listing evicts the job the dictionary keeps |
| StoreEquivalence.ReversedStampsDiffer | backend/worker/store.py:53-60 | two jobs inserted in the reverse of their stamps: the stores evict different ones without any tie |
| Executor.StepKeepsInvariant | backend/worker/executor.py:33-55 | every lock section keeps both counters equal to the calls they count |
| Executor.CountersAreExact | backend/worker/executor.py:33-55 | in every interleaving both counters stay within their limits and accepted calls are pending, running or finished |
| Executor.StartsAtMostOnce | backend/worker/executor.py:40-48 | each accepted call starts at most once, exactly once if it finished |
| Executor.UploadMemory | backend/app/settings.py:9-11 | queued bytes and queued-plus-running bytes are bounded by the limits times the largest reservation |
| Executor.UploadMemoryIsReached | backend/app/settings.py:9-11 | for all limits with a queue some interleaving reaches both bounds |
| Executor.ProductBoundsHeld | backend/app/settings.py:9-11 | queue places times largest upload bounds what waiting and running checks hold in every run exactly when there is no worker, no queue or nothing to hold |
| Executor.BoundedExecutor.TryReserve | backend/worker/executor.py:34-37 | refused exactly when as many accepted calls as allowed have not started |
| Executor.BoundedExecutor.Begin | backend/worker/executor.py:41-43 | a call moves from pending to running |
| Executor.BoundedExecutor.End | backend/worker/executor.py:46-48 | a running call is finished |
| Executor.BoundedExecutor.Undo | backend/worker/executor.py:52-55 | a call the pool refused gives its place back |
| Uploads.ReadUploads | backend/app/routers/check.py:65-105 | the outcome of the validation sequence, all error cases in order |
| Uploads.OutcomeMeaning | backend/app/routers/check.py:65-105 | for each outcome the exact condition; an accepted check holds the readable references in order, all their bytes with the manuscript's, and a warning for each one passed over and one for the rest not looked at |
| Uploads.ReadReferences | backend/app/routers/check.py:84-105 | keeps the usable files in order, counts the skipped ones, and stops exactly when the usable files exceed the cap |
| Uploads.RequestCapHolds | backend/app/routers/check.py:70-104 | every accepted check respects the request cap if and only if the file cap does not exceed it |
| Uploads.AcceptedAtMost | backend/app/routers/check.py:70-104 | no accepted check is larger than the caps and the number of files allow |
| Uploads.MostIsAccepted | backend/app/routers/check.py:70-104 | some accepted check is exactly that large |
| Uploads.QueuedUploadsFit | backend/app/settings.py:9-11 | over all uploads and interleavings: waiting checks stay within queue places times request cap exactly when nothing can wait or the file cap does not exceed the request cap; so do waiting and running ones within places plus workers times it |
| Uploads.ProductBoundsUploads | backend/app/settings.py:9-11 | the documented product bounds waiting and running checks together exactly when the largest accepted checks on all places and workers fit it |
| JobLifecycle.StepKeepsInvariant | backend/worker/runner.py:79-121 | each step keeps every record consistent with its thread and every cached result free of comparisons |
| JobLifecycle.StepMovesJob | backend/worker/runner.py:94-119 | one step moves a job only queued to running to done or error, or queued to error |
| JobLifecycle.LifecycleIsSafe | backend/worker/runner.py:79-121 | over any run the owner is fixed, done jobs have results, cached results no comparison, and terminal records never change when reports carry their match count |
| JobLifecycle.TerminalIsFinal | backend/worker/runner.py:111-119 | end to end: with reports assembled from the matcher's totals, done and error records never change again |
| JobLifecycle.DoneIsFinalIffCounted | backend/worker/runner.py:111-119 | a job just recorded as done can end in error if and only if its report lacks the match count |
| JobLifecycle.ResultsAreDelivered | backend/worker/runner.py:79-121 | over any run: owner and creation stamp of a record are those of its submission, its last stamp that of a step of its own; its result, and whatever the result cache holds, was delivered for the same content, with the comparison made for this very job exactly when one was asked for; an error is the refusal's, what was raised, or the fixed message |
| JobLifecycle.StoresOnlyForget | backend/worker/postgres_store.py:100-153 | seen from the runner a store operation inserts, updates or forgets |
| CheckRunner.CheckRunner.Submit | backend/worker/runner.py:79-87 | at capacity the new record is closed with the busy error and nothing is queued; else it is stored as queued and the call reserved |
| CheckRunner.CheckRunner.Run | backend/worker/runner.py:94-119 | how the job ends for every outcome of cache, pipeline and comparison, with no other job touched, and what the result cache then holds, free of comparisons |
| CheckRunner.OutcomeMeaning | backend/worker/runner.py:94-119 | a rejection ends with its own message, any other failure, a failed comparison and a report without a match count with the fixed one, everything else with the cached or delivered report and the comparison asked for |
| CheckRunner.CheckRunner.ResultFor | backend/worker/runner.py:99-105 | the cached result of the same content or a fresh one; afterwards the cache holds it as the most recent entry, with its bound, and a stale entry is gone |
| RateLimiter.RateLimiter.Check | backend/app/limits.py:40-54 | the answer and the new buckets of one hit, after the lazy sweep; a refusal leaves every remaining window as it was, and no hit touches another client's live window |
| RateLimiter.RateLimiter.Sweep | backend/app/limits.py:56-61 | below the threshold nothing, else exactly the windows that are over are dropped |
| RateLimiter.SweepingIsInvisible | backend/app/limits.py:56-61 | sweeping never changes an answer under a clock that does not run backwards |
| RateLimiter.IntervalBound | backend/app/limits.py:40-54 | any half-open interval of one window length holds at most twice the limit minus one allowed hits of a client |
| RateLimiter.WindowBound | backend/app/limits.py:48-54 | a limiter window holds at most the limit |
| RateLimiter.IntervalBoundIsReached | backend/app/limits.py:48-54 | for every limit and window length a run reaches the interval bound |
| RateLimiter.RetryAfter | backend/app/limits.py:51-52 | waiting the advertised seconds suffices exactly when the time left was whole or under a second; one second more always does |
| RateLimiter.RefusedLeaveNoTrace | backend/app/limits.py:48-54 | over a whole run: removing the refused hits changes no other answer |
| RateLimiter.RetryAfterRun | backend/app/limits.py:48-54 | after a refusal, whatever refused hits follow, the hit one second past the advertised wait is allowed, and the one at it exactly when the time left was whole or under a second |
| UsageQuota.InMemoryUsageLedger.RecordNow | backend/worker/usage.py:38-40 | the acceptance is appended for its owner only |
| UsageQuota.InMemoryUsageLedger.Count | backend/worker/usage.py:42-44 | the number of acceptances at or after the given time |
| UsageQuota.InMemoryUsageLedger.Sweep | backend/worker/usage.py:46-56 | every owner keeps exactly the acceptances that are recent enough, owners without any are forgotten; removed plus kept equals recorded |
| UsageQuota.SweepingIsInvisible | backend/worker/usage.py:46-56 | sweeping what is older than the window changes no decision |
| UsageQuota.QuotaBound | backend/app/routers/check.py:133-153 | submissions one at a time: no closed interval of window length holds more than the quota of recorded acceptances |
| UsageQuota.AcceptedIff | backend/app/routers/check.py:133-153 | a submission that is otherwise fine is accepted exactly when the quota is unlimited or fewer than the quota of the user's acceptances were recorded within the window |
| CoachBudget.CoachBudget.Take | backend/services/coach.py:144-152 | whether a call is granted and the new tally, which is that of all requests so far |
| CoachBudget.GrantedIsCappedBlocks | backend/services/coach.py:144-152 | for any clock and cap: what a day is granted is the sum, over its uninterrupted stretches of requests, of the smaller of stretch and cap |
| CoachBudget.CapHoldsIffContiguous | backend/services/coach.py:144-152 | for any clock: no day grants more than a non-zero cap, whatever the cap, exactly when no day's requests are interrupted by another day's |
| CoachBudget.DailyCap | backend/services/coach.py:144-152 | no day grants more than a non-zero cap under a clock that does not run backwards |
| CoachBudget.ClockSetBack | backend/services/coach.py:147-148 | a clock set back over midnight grants a day's calls twice |
| Sentences.SplitSentences | backend/services/plagiarism_matcher.py:61-81 | the loop over terminators yields exactly the sentences, in order |
| Sentences.SentencesIff | backend/services/plagiarism_matcher.py:49-101 | on characters: the sentences are the stretches that are not blank between one cut and the next, a cut being behind each longest mark unless that is a lone period between digits, after an abbreviation or an initial, or before lower case |
| Sentences.NextMarkMeaning | backend/services/plagiarism_matcher.py:49-49 | a terminator mark is all newlines or holds none, and no newline is passed over |
| Sentences.SplitInOrder | backend/services/plagiarism_matcher.py:61-81 | spans are ordered, disjoint and inside the text |
| Sentences.OutsideIsSpace | backend/services/plagiarism_matcher.py:61-81 | every character outside the spans is white space |
| Sentences.SpanShape | backend/services/plagiarism_matcher.py:72-81 | no span is blank and newlines stand only at its end |
| Sentences.NoDecimalIsSplit | backend/services/plagiarism_matcher.py:84-91 | no span begins or ends inside digit-dot-digit |
| Sentences.Sentences | backend/services/plagiarism_matcher.py:546-556 | exactly the sentences with enough words, without the white space at their ends, in order |
| Sentences.UnitShape | backend/services/plagiarism_matcher.py:546-556 | a unit is the document text at its offsets, non-empty, without outer white space or any newline, and only white space was stripped |
| Unwrap.UnwrapKeepsWords | backend/services/document_parser.py:114-129 | unwrapping neither drops, adds nor reorders a word character |
| Unwrap.NoWrapIsLeft | backend/services/document_parser.py:124-129 | no line break that only wraps is left |
| Unwrap.UnwrapMeaning | backend/services/document_parser.py:114-129 | character by character: all of the text but the hyphen and break of each rejoined word, with a space for each break that does not follow a sentence end and goes on in lower case, a digit or a parenthesis |
| Unwrap.RejoinLeavesShared | backend/services/document_parser.py:128-128 | rejoining leaves a broken word exactly when two broken words of the text share a letter |
| Unwrap.UnwrapTwice | backend/services/document_parser.py:128-129 | a second pass changes nothing exactly when no skipped broken word goes on with something that does not continue a line |
| Unwrap.OnePassIsEnough | backend/services/document_parser.py:128-129 | without broken words that share a letter every broken word is rejoined and a second pass changes nothing |
| Unwrap.SecondPassCanRejoinMore | backend/services/document_parser.py:128-129 | a concrete text on which a second pass still changes something |
| Document.Assemble | backend/services/document_parser.py:225-236 | the loop produces the joined text and the paragraph anchors |
| Document.AssembledIsTiled | backend/services/document_parser.py:225-236 | each paragraph slice equals its block, paragraphs and separators tile the text |
| Document.ExcludeReferenceList | backend/services/document_parser.py:209-220 | something is dropped exactly when the last heading of at most 40 characters stands in the final 40% of at least five blocks, and then from that heading on |
| Document.BisectRight | backend/pipeline/stages.py:142-144 | the insertion point after all starts not above the position |
| Document.Localize | backend/pipeline/stages.py:139-151 | every match gets its paragraph and page, in place |
| Document.LookupIsUnique | backend/pipeline/stages.py:143-147 | the lookup returns the one paragraph that owns the position |
| Document.StretchInOneParagraph | backend/pipeline/stages.py:143-147 | a stretch without a newline lies inside exactly one paragraph, the one looked up |
| Localization.UnitInOneParagraph | backend/pipeline/stages.py:139-151 | end to end: every sentence unit of an assembled document lies in exactly one paragraph, which the lookup returns with its page |
| Highlight.Resolve | frontend/js/check.js:510-518 | the cursor loop keeps the resolved segments |
| Highlight.BuildHighlight | frontend/js/check.js:504-531 | the loop cuts the text at the resolved segments |
| Highlight.KeptAreSegments | frontend/js/check.js:510-518 | kept segments are ordered, disjoint and non-empty |
| Highlight.KeptTags | frontend/js/check.js:510-518 | a position is kept exactly when a span covers it, with the tag of the first such span |
| Highlight.VerbatimWinsTies | frontend/js/check.js:508-510 | where a verbatim span starts together with others its mark shows |
| Highlight.HighlightIsFaithful | frontend/js/check.js:504-531 | for any spans, even out of bounds, the pieces spell the document and each character carries the right mark |
| Highlight.UnionIsMarked | frontend/js/check.js:504-531 | from unsorted matches to the page: the marked characters are the union of the spans |
| NumericGuard.CountShared | backend/services/numeric_guard.py:81-88 | greedy removal from the pool counts the multiset intersection |
| NumericGuard.Agreement | backend/services/numeric_guard.py:72-90 | silent without figures, else the rounded index |
| NumericGuard.AgreementMeaning | backend/services/numeric_guard.py:72-110 | with figures on both sides the agreement is, to four decimals, the figures both state over those either states, with multiplicity, and a conflict is an agreement within the gate |
| NumericGuard.JaccardMeaning | backend/services/numeric_guard.py:89-90 | between 0 and 1; 0 exactly when nothing is shared, 1 exactly when the multisets are equal |
| NumericGuard.AgreementIsSymmetric | backend/services/numeric_guard.py:72-90 | independent of the order of texts and of figures |
| NumericGuard.ConflictIsSymmetricAndMonotone | backend/services/numeric_guard.py:102-110 | a conflict is mutual, never withdrawn by a wider gate, never raised without figures |
| NumericGuard.ConflictAtTheEnds | backend/services/numeric_guard.py:102-110 | nothing shared conflicts at any non-negative gate, equal figures only at a gate of one |
| CoachFilter.GramTestIsCommonRun | backend/services/coach.py:161-170 | the gram-set test holds exactly when the two texts have a common run of that length |
| CoachFilter.StripKeepsWords | backend/services/coach.py:181-188 | what is checked on the stripped field holds of the field as shown |
| CoachFilter.PostFilter | backend/services/coach.py:173-192 | the loop filters the card field by field; the names returned are exactly the fields replaced, in field order |
| CoachFilter.FilteredField | backend/services/coach.py:180-191 | a passing field is kept as written, a bad one replaced by the rule's text |
| CoachFilter.BadIff | backend/services/coach.py:180-188 | a field is replaced exactly when it is blank, longer than 600 characters, coaches evasion or has eight words in a row from the source or the passage |
| CoachFilter.FilteredIsClean | backend/services/coach.py:173-192 | whatever the model wrote, each field is the rule's own text or shares no run of eight words with the texts given to the filter and does not evade |
| CoachFilter.PartsDecide | backend/services/coach.py:161-170 | refusing what copies either of two parts refuses what copies a whole text, for every field, exactly when every run of the text is a run of one of the parts |
| CoachFilter.PartsSuffice | backend/services/coach.py:180-188 | filtered against parts of two texts, every card is clean for the texts if every run of eight words is kept by a part, and only if every lost run is too long for a field, reads as evasion or is the rule's own text |
| CoachFilter.LostRunPasses | backend/services/coach.py:180-188 | the text of a run that neither part has copies the whole text and is refused only for its length or as evasion |
| Coach.SelectedAreMostUrgent | backend/services/coach.py:241-245 | exactly the most urgent coachable flags are selected, each once and in order: lower priority number first, then higher similarity, then listed order |
| Coach.FrameIsUniqueIff | backend/services/coach.py:222-227 | the framing of the cache key tells a key from every other exactly when no part holds the separator |
| Coach.SharesCardIff | backend/services/coach.py:222-227 | two flags share a cached card exactly when model, rule and the first 700 characters of both excerpts agree, unless a part of the key holds the separator |
| Coach.TwinServesCopy | backend/services/coach.py:222-227 | two flags with one cache key: a card that passes for the first copies the second's source excerpt |
| Coach.CutsDecide | backend/services/coach.py:270-271 | refusing what copies either cut excerpt refuses what copies either excerpt, for every field, exactly when the cuts together lose no run of eight words |
| Coach.FilterSuffices | backend/services/coach.py:270-298 | for every card the model can write: filtering against the cuts is enough if they lose no run, and only if every lost run is refused on other grounds or is the rule's own text |
| Coach.ShortExcerptsKeepRuns | backend/services/coach.py:270-271 | excerpts of at most 700 characters are not cut and lose no run |
| Coach.CutCanLeak | backend/services/coach.py:270-271 | a verbatim match of nine words, the first as long as the cut, whose other eight words pass the filter |
| Coach.Coach.CardFor | backend/services/coach.py:267-303 | cache hit, exhausted budget, failed call or filtered answer, each in its own case, with the budget requests and calls made and other checks at work during the call |
| Coach.Coach.CoachMatches | backend/services/coach.py:248-310 | with other checks at work on the shared cache and budget: only selected flags change; every card shown is clean for the cut excerpts, and for the full ones where the cuts together lose no run of eight words, also on cache hits of keys without a separator; coached plus errors within the limit; calls accounted for and, per day, within the cap while no day's requests are interrupted; the shared cache stays clean |
| BoundaryMatching.GreedyMatches | research/experiments/evaluate_metrics.py:94-99 | the greedy pairs are a one-to-one pairing within tolerance of the counted size |
| BoundaryMatching.GreedyIsMaximal | research/experiments/evaluate_metrics.py:90-101 | where neither list has a close inversion no one-to-one pairing within tolerance has more pairs than the loop counts |
| BoundaryMatching.GreedyIsOptimal | research/experiments/evaluate_metrics.py:90-101 | the count is that of a pairing, and without close inversions, in ascending lists above all, of a largest one |
| BoundaryMatching.OptimalForTruesIff | research/experiments/evaluate_metrics.py:90-101 | the loop is optimal for every prediction list without close inversions, or every ascending one, exactly when the true boundaries have none |
| BoundaryMatching.OptimalForPredsIff | research/experiments/evaluate_metrics.py:90-101 | the loop is optimal for every list of true boundaries without close inversions, or every ascending one, exactly when the predictions have none |
| BoundaryMatching.FirstFit | research/experiments/evaluate_metrics.py:95-99 | the inner loop finds the first unmatched boundary within tolerance |
| BoundaryMatching.CountMatched | research/experiments/evaluate_metrics.py:90-101 | the loops count the greedy pairs |
| BoundaryMatching.UnsortedCanMiss | research/experiments/evaluate_metrics.py:94-99 | a concrete unsorted input on which a pair is missed |
| BoundaryMatching.BoundaryF1 | research/experiments/evaluate_metrics.py:65-110 | scores of the greedy pairing, without close inversions of a largest pairing, with all three empty cases |
| BoundaryMatching.ScoresMeaning | research/experiments/evaluate_metrics.py:102-110 | precision is over the predictions, recall over the true boundaries, F1 from both |
| BoundaryMatching.EmptyScores | research/experiments/evaluate_metrics.py:82-87 | each of the three empty cases |
| BoundaryMatching.F1IsDice | research/experiments/evaluate_metrics.py:102-104 | unrounded, F1 is twice the pairs over all boundaries unless the division guard takes over |

## Left out

- Embedding and cross-encoder models, cosine similarity, lexical budgeting and language detection: inputs here.
- The paraphrase search itself: its similarity scores come from models; only the overlap test against verbatim spans is modelled.
- `confident_threshold_for`: logarithm and rounding; the cutoff is an input.
- Numbers are taken as parsed: the number pattern and number words of the numeric guard are not modelled.
- PDF extraction, boilerplate removal, provider searches, model calls, connection pooling, JSON storage of results: input and output.
- Token verification, hashing and the framing of the content hash: keys are abstract and no claim is made that equal keys mean equal requests.
- `shutdown` of the executor: cancelled work leaves the pending count behind.
- Quota under concurrent requests: the check and the record are separate steps, so only the sequential bound holds.
- Fields outside the update whitelist: the two stores treat them differently; the model's update cannot name them.
- The Postgres usage ledger: its statements are the list operations over again.
- Token usage, cost estimate and filtered-field count of the coaching summary: plain sums.
- Escaping of text for the page, and the browser sort's behaviour on an inconsistent comparator: the model sorts by start, verbatim first at a tie.
- Coach.Coach.CoachMatches: the digest of the framed key is taken to tell frames apart, and text to survive its encoding unchanged.
- Highlight.UnionIsMarked: spans and text share one index unit; the program counts code points on the server and slices UTF-16 units in the page, which differ behind a character outside the basic plane.
- Executor.BoundedExecutor.Undo: the pool's own `submit` is taken to queue the call or to raise, never both.
- Uploads.QueuedUploadsFit: counts what accepted checks hold; an upload that a request handler is still reading is in no count, and nothing in the executor limits how many handlers read at once.
- StoreEquivalence.StoresAgree: whole runs are stated for increasing stamps and updates that set something; for other runs the exact conditions are those of one operation.

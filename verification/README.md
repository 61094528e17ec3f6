# turboSH: a verified model of its stateful cores

turboSH is a reverse proxy in Go with a forecasting package in Python. What makes it work is a
handful of compact data structures and dynamic programs, each of which stands in for something
simple over an unbounded history: a token bucket for the whole record of calls, a ring buffer for
the end of a log, a table of scores for all paths through a hidden Markov model. The project models
these parts one module per source file and proves that each compact state agrees with its simple
specification, on every run.

| module | source file |
|---|---|
| `HmmModel` | forecasting/models/hmm_model.py |
| `MarkovChain`, `AttackProgression` | forecasting/models/markov_chain.py, forecasting/attack_progression.py |
| `LruCache`, `LinkedList`, `Responses` (heap), `CacheModel`, `CacheRuns` (values) | core/cache/lru_cache.go, core/cache/ttl_manager.go |
| `RateLimiter` | core/security/rate_limiter.go |
| `TrafficRules`, `Windows` | core/security/traffic_rules.go |
| `Middleware` | core/inference/middleware.go |
| `StateExport`, `JsonLines` | core/inference/state_export.go |
| `TrafficLogger` | pipeline/logging/traffic_logger.go |
| `FeatureExtractor` | pipeline/feature_extraction/feature_extractor.py |
| `LeadTime` | forecasting/evaluation/lead_time.py |
| `StateLabeler` | forecasting/state_labeler.py |
| `StateStore`, `FlushProtocol` | forecasting/state_store.py |
| `DashboardState` | monitoring/dashboard_state.go |
| `Forecaster`, `ForecasterNoCgo` | core/forecasting/forecaster.go, core/forecasting/forecaster_nocgo.go |
| `RiskAdvisor`, `Decision` | core/forecasting/risk_advisor.go, core/decision/decision_engine.go |
| `Common`, `LinearAlgebra` | shared definitions; the NumPy operations the models use |

`dafny verify dfyconfig.toml` checks the whole project.

## Conventions

- Floats are real numbers. Clocks are explicit parameters that do not run backwards; a method that
  reads the clock takes the reading as an argument.
- Strings of the cache are byte sequences, because its sizes count bytes; elsewhere strings are only
  compared, and characters stand for bytes.
- A method under a mutex is one atomic step. Where the lock is released in between (the exporter,
  the logger, the two phases of a flush) the steps are separate and interleave freely.
- Objects that the source updates in place are classes. Their methods are proved against a function
  or predicate on values, and the theorems over whole runs are lemmas about those values.
- What a function counts, filters or orders is also stated apart from it: as the size of a set of
  positions or operations, by where each element stands, or from the inputs of the run alone.
- Logarithm, exponential, emission density, endpoint entropy, JSON encoding and the outcome of a
  model session are parameters: the theorems hold for any (where a proof needs a property of one,
  such as "the logarithm turns products into sums", it is a precondition).

## Where the code and its description part ways

The model follows the code; each point is a theorem in the table below.

- The byte cap of the cache is not an invariant. Updating an existing key adjusts the memory count
  and returns without evicting (`ByteCapExactly`), so every cap with room for an entry can be exceeded
  (`UpdateExceedsByteCap`). An inserted response that
  alone exceeds the cap empties the cache, itself included (`OversizedEmpties`).
- Cleaning up token buckets forgets calls unless the age lets an empty bucket refill
  (`CleanupInvisibleExactly`: if and only if `maxAge * rate >= capacity`).
- The key `ip:endpoint` is ambiguous: two pairs share it exactly when a colon can move between address
  and endpoint (`KeysCollideExactly`), as it can for endpoints without a leading slash
  (`EndpointKeyCollides`). A check then counts the calls of both pairs (`EndpointAnswersByKey`), and for
  every colliding pair and all limits some run is rejected that should pass (`CollisionChangesAnswer`).
  Without a colliding call in the window the count is the pair's own (`EndpointAnswersExact`); runs over
  a set of pairs are always answered by the pair exactly when none of them collide
  (`PairsKeptApartExactly`).
- `get_ip_history(ip, 0)` returns the whole history rather than none of it, a negative n drops states
  from the front, and no call returns more than 200 (`HistoryExactly`). A `min_length` below
  `window_size` has no effect on `get_all_sequences` (`SequencesExactly`); `from_state_store` asks for
  windows of 4 with minimum 2, so addresses with two or three states contribute nothing to the fit.
- Reloading with the default limit of 1000 does not restore a full buffer of 10000
  (`RestartExactly`). A failed insert loses the states it was to persist, which have left the unflushed
  list by then (`RunKeepsLog`). Two flushes at the same time can commit out of order, and the table then stays
  out of order (`InOrderExactly`).
- A snapshot handed to the exporter after the worker's last look at the queue is neither written nor
  counted as dropped (`CloseGuarantee`); any that fit into the queue can get lost that way (`LateSnapshotsAreLost`).
- The offline extractor skips idle gaps "where the client is inactive"; the skipped windows need not
  be empty, and with a step no longer than the window some skipped window never is
  (`JumpSkipsExactly`). Its ten-second count stays below the window count in all evaluated windows of all
  logs only when the window is at least ten seconds long (`CountsNestExactly`).
- The per-stage breakdown of false alarms adds up only when every false alarm predicts a known stage
  (`BreakdownComplete`).
- The forecast's risk level is not monotone in the stages: it drops in exactly three situations
  (`RiskDropsExactly`), early reconnaissance being one (`ReconMasksEscalation`). A worse
  recent history can weaken the fused action (`WorseHistoryWeakensExactly`), although no forecast
  ever weakens the base action (`FusedMonotone`).
- Fitting without smoothing divides by zero for a state never left; NumPy yields NaN and carries on.
  The model reports such a fit as undefined and leaves the parameters alone.

## Model

| member | source | states |
|---|---|---|
| HmmModel.Forecaster.Viterbi | forecasting/models/hmm_model.py:125-164 | for every observation sequence, number of states, logarithm and density: the decoded path scores at least as high as each of the n^T state sequences, and among the best ones it is the reverse-lexicographically least |
| HmmModel.Problem.DecodedIsOptimal | forecasting/models/hmm_model.py:158-164 | the decoded score is the maximum of the last table row; no path exceeds it, and paths that tie do not precede the decoded one |
| HmmModel.Problem.TraceAchieves | forecasting/models/hmm_model.py:148-164 | following the back-pointers realises the score that a table cell promises |
| HmmModel.Problem.CellIsUpperBound | forecasting/models/hmm_model.py:148-156 | no path into a cell scores above the cell |
| HmmModel.Problem.TraceIsLeast | forecasting/models/hmm_model.py:153-162 | first-index argmax makes the traced path the reverse-lexicographically least of the best paths into its cell |
| HmmModel.Problem.BestIsUnique | forecasting/models/hmm_model.py:125-164 | optimality with this tie rule determines the path, so the contract of Viterbi leaves one answer |
| HmmModel.Problem.FillTables | forecasting/models/hmm_model.py:139-156 | the nested loops fill both tables as the recursion prescribes, first best predecessor in every cell |
| HmmModel.Problem.Backtrack | forecasting/models/hmm_model.py:158-162 | the backward loop yields a valid path that follows every back-pointer and ends in the given state |
| HmmModel.Problem.Decode | forecasting/models/hmm_model.py:133-164 | for any log-domain tables, filling and backtracking yields that best path |
| HmmModel.Problem.ScoreIsLogLikelihood | forecasting/models/hmm_model.py:126-137 | under a true logarithm the log-score of any path is the logarithm of its joint probability, which is positive |
| HmmModel.Problem.ScoresOrderAsLikelihoods | forecasting/models/hmm_model.py:126-137 | comparing log-scores is comparing joint probabilities, both ways |
| HmmModel.Forecaster.BestScoreIsMostProbable | forecasting/models/hmm_model.py:125-137 | for any table of probabilities that equals the parameters entry by entry, or 1e-12 where they are below it: under a true logarithm, comparing the scores of two paths is comparing their joint probabilities with the observations |
| HmmModel.Forecaster.DecodedIsMostProbable | forecasting/models/hmm_model.py:125-164 | the decoded path has the largest joint probability of all state sequences, and is the reverse-lexicographically least of those that have it |
| HmmModel.Forecaster.DecodedIsMostProbableUnclipped | forecasting/models/hmm_model.py:125-164 | where no parameter is below 1e-12, that is the probability under the start and transition probabilities as they are |
| HmmModel.Forecaster.Predict | forecasting/models/hmm_model.py:166-171 | the state in which the unique best path ends, or NORMAL without observations |
| HmmModel.Forecaster.ForecastProba | forecasting/models/hmm_model.py:189-202 | step h is the h-th power of the transition matrix applied to the decoded current state, and a distribution whenever the matrix is stochastic |
| HmmModel.Forecaster.Forecast | forecasting/models/hmm_model.py:173-187 | step h is the first most likely stage of that distribution |
| HmmModel.Forecaster.Fit | forecasting/models/hmm_model.py:54-100 | start and transition probabilities are the smoothed, normalised counts over the usable sequence pairs; exactly when all divisors are nonzero, which alpha > 0 ensures; otherwise, where the source stores NaN and marks the model fitted, nothing changes |
| HmmModel.TotalsPositive | forecasting/models/hmm_model.py:94-100 | with alpha > 0 the start total and every row total are positive |
| HmmModel.Forecaster.Count | forecasting/models/hmm_model.py:67-92 | the accumulated arrays hold, for every state and pair, how often it occurs in the usable sequences, invalid stages ignored |
| HmmModel.CountsArePositions | forecasting/models/hmm_model.py:71-92 | the counts are the numbers of used pairs that begin in a state, and of positions at which used pairs step from one state to another; used are the nonempty ones of equal length |
| HmmModel.Forecaster.FitInProportionToData | forecasting/models/hmm_model.py:67-100 | start probabilities and transition rows sum to one and are in the ratio of those numbers plus alpha |
| HmmModel.Forecaster.FitWithSmoothing | forecasting/models/hmm_model.py:94-100 | with alpha >= 0 a defined fit yields distributions, and with alpha > 0, whatever the data, strictly positive ones |
| MarkovChain.Chain.Fit | forecasting/models/markov_chain.py:27-52 | the matrix is the smoothed, normalised table of transition counts; exactly when no row total is zero, which alpha > 0 ensures; otherwise, where the source stores NaN rows and marks the chain fitted, nothing changes |
| MarkovChain.Chain.CountTransitions | forecasting/models/markov_chain.py:36-45 | cell (i, j) is the number of transitions from i to j in all sequences together |
| MarkovChain.AddPairs | forecasting/models/markov_chain.py:41-45 | one sequence adds its pair counts to the table and nothing else, pairs with unknown states ignored |
| MarkovChain.CountRowTotal | forecasting/models/markov_chain.py:47-50 | a row of counts sums to the number of observed departures from its state |
| MarkovChain.PairsAreSteps | forecasting/models/markov_chain.py:38-45 | the counts are numbers of positions in the sequences |
| MarkovChain.FitInProportion | forecasting/models/markov_chain.py:36-50 | a fitted row sums to one, and its entries are in the ratio of the numbers of positions plus alpha |
| MarkovChain.NormalisedSumsToOne | forecasting/models/markov_chain.py:48-50 | a smoothed row divided by its own sum adds up to one |
| MarkovChain.FitIsStochastic | forecasting/models/markov_chain.py:33-50 | with alpha >= 0 every row of a fitted matrix is a distribution, and with alpha > 0 a strictly positive one |
| MarkovChain.SmoothedTotalPositive | forecasting/models/markov_chain.py:48-49 | with alpha > 0 no row total is zero, so the division is always defined |
| MarkovChain.Chain.PredictTrajectory | forecasting/models/markov_chain.py:69-86 | step h is the first most likely stage after h transitions; NORMAL throughout for an unknown stage |
| MarkovChain.Chain.PredictTrajectoryProba | forecasting/models/markov_chain.py:88-104 | step h is the distribution after h transitions, uniform for an unknown stage |
| MarkovChain.Chain.ForecastStarts | forecasting/models/markov_chain.py:60-84 | no step leaves the stage certain, one step is its row of the matrix |
| MarkovChain.Chain.PredictIsFirstStep | forecasting/models/markov_chain.py:54-86 | the next stage that predict names is where the trajectory begins, for unknown stages too |
| MarkovChain.Chain.ForecastIsDistribution | forecasting/models/markov_chain.py:88-104 | every forecast vector of a stochastic chain stays a distribution, at any horizon and for any stage |
| MarkovChain.Chain.ForecastComposes | forecasting/models/markov_chain.py:97-104 | a + b steps are the b-step forecasts of all stages mixed by the a-step probabilities (Chapman-Kolmogorov) |
| LinearAlgebra.PowerIsMixture | forecasting/models/markov_chain.py:97-102 | forecasting from any vector is mixing the forecasts from the single states |
| LinearAlgebra.VecMatDistribution | forecasting/models/markov_chain.py:100-102 | one transition keeps a distribution a distribution |
| AttackProgression.Model.OutcomesSumToOne | forecasting/attack_progression.py:42-74 | escalation, de-escalation and stability are nonnegative and add up to one, for valid and invalid stages; an invalid stage is all stability |
| AttackProgression.Model.OutcomesAreMass | forecasting/attack_progression.py:42-74 | escalation is the probability that the one-step forecast gives to higher stages, de-escalation to lower ones, stability to the stage itself |
| AttackProgression.Model.LikelyTrajectory | forecasting/attack_progression.py:76-91 | each step is the most likely stage of the forecast, lowest first, with its probability |
| AttackProgression.Model.TrajectoryAgrees | forecasting/attack_progression.py:76-91 | for unknown stages both trajectory methods name NORMAL |
| AttackProgression.Model.ConfidenceAtLeastUniform | forecasting/attack_progression.py:84-91 | a reported confidence is never below 1/n |
| LruCache.LRUCache.constructor | core/cache/lru_cache.go:44-59 | an empty cache; a nonpositive capacity becomes 1, a nonpositive byte cap none |
| LruCache.LRUCache.Get | core/cache/lru_cache.go:101-124 | on the heap: refines the value-level Get; a found response lives in fresh storage and equals the stored one; map, list, sizes and memory count stay consistent |
| LruCache.LRUCache.Set | core/cache/lru_cache.go:131-173 | on the heap: refines the value-level Set with a deep copy of the argument, update branch without eviction included |
| LruCache.LRUCache.Delete | core/cache/lru_cache.go:176-185 | on the heap: removes exactly the key, and only its entry |
| LruCache.LRUCache.RemoveElement | core/cache/lru_cache.go:88-96 | list, map and memory count lose exactly this element and stay in bijection |
| LruCache.LRUCache.EvictLast | core/cache/lru_cache.go:189-195 | drops the least recently used entry and counts it; nothing on an empty cache |
| LruCache.LRUCache.EvictOver | core/cache/lru_cache.go:160-170 | both eviction loops terminate in the state that the value-level eviction names, each eviction counted |
| LruCache.LRUCache.RemoveExpired | core/cache/ttl_manager.go:29-49 | the back-to-front walk removes exactly the expired entries (those whose last Set is not fresh any more: SweepLeavesFresh), keeps the order of the others, and counts each |
| LruCache.LRUCache.OutsideWritesAreHarmless | core/cache/lru_cache.go:61-84 | writes to any object outside the cache's own storage, such as a response handed out or passed in, change neither its validity nor its contents |
| LinkedList.List.PushFront | core/cache/lru_cache.go:157-157 | the pointers represent the new element followed by the old list |
| LinkedList.List.Remove | core/cache/lru_cache.go:92-92 | the pointers represent the old list without the element |
| LinkedList.List.MoveToFront | core/cache/lru_cache.go:121-121 | the element comes first, the others keep their order |
| Responses.CopyResponse | core/cache/lru_cache.go:61-84 | the copy has the same contents and shares no storage: headers, value slices and body are fresh |
| Responses.EntrySizeOf | core/cache/lru_cache.go:18-28 | key, body and header bytes plus 32 |
| CacheModel.HeaderBytesPick | core/cache/lru_cache.go:21-26 | the size does not depend on the iteration order of the header map |
| CacheModel.ValueBytesAreJoined | core/cache/lru_cache.go:21-26 | the values of a header count as the bytes they have together |
| CacheModel.Evict | core/cache/lru_cache.go:160-170 | what is left is a prefix of the recency order that meets both caps |
| CacheModel.EvictIsLongest | core/cache/lru_cache.go:155-173 | every longer prefix breaks a cap: eviction removes no more than it must |
| CacheModel.OversizedEmpties | core/cache/lru_cache.go:155-170 | an inserting Set leaves the cache empty if and only if there is a byte cap and the new entry alone exceeds it |
| CacheModel.WithoutAt | core/cache/lru_cache.go:88-96 | with unique keys, removing an element is removing its key |
| CacheRuns.RunKeepsInv | core/cache/lru_cache.go:101-195 | over every run: unique keys, length within capacity, entry sizes true to their contents, caps unchanged |
| CacheRuns.ByteCapExactly | core/cache/lru_cache.go:146-170 | an operation breaks the byte cap if and only if it updates an existing key to a size that does not fit |
| CacheRuns.UpdateExceedsByteCap | core/cache/lru_cache.go:146-170 | for every capacity and byte cap, some run from the empty cache ends above the cap if and only if the cap is at least 32 bytes, the size of the smallest entry |
| CacheRuns.TinyCapStaysEmpty | core/cache/lru_cache.go:165-170 | below 32 bytes the cache is empty after every run |
| CacheRuns.CountersConserve | core/cache/lru_cache.go:101-195 | hits + misses = Gets, and inserts = entries present + evictions + effective Deletes, over every run |
| CacheRuns.HitIsLastSet | core/cache/lru_cache.go:101-153 | over every run, in terms of the operations: a present key was set and not deleted since; a Get at now finds it if and only if its last Set has no TTL or now <= time + ttl, and returns the status, headers and body of that Set |
| CacheRuns.FreshAndRecentIsHit | core/cache/lru_cache.go:101-173 | without a byte cap: if the last Set of a key is still fresh and fewer other keys than the capacity were named since, or since a later Get that found it, then the Get is a hit |
| CacheRuns.SweepLeavesFresh | core/cache/ttl_manager.go:29-49 | a sweep leaves exactly the keys whose last Set is still fresh |
| CacheRuns.HitsCounted | core/cache/lru_cache.go:101-124 | the hit counter is the number of Gets of the run that found something |
| CacheRuns.OrderIsRecency | core/cache/lru_cache.go:98-157 | over every run the list is ordered by last use |
| CacheRuns.RunsIncluded | core/cache/lru_cache.go:101-195 | without a byte cap, on the same run of Get, Set, Delete and sweeps, the contents at capacity c are a subsequence of those at c' >= c with at most c' - c entries more |
| CacheRuns.LargerCacheHits | core/cache/lru_cache.go:101-124 | every hit of the smaller cache is the same hit of the larger |
| RateLimiter.LevelIsLeastAllowance | core/security/rate_limiter.go:63-70 | the lazily refilled level is the minimum, over all earlier calls, of what capacity and refill since then leave |
| RateLimiter.AdmittedExactly | core/security/rate_limiter.go:48-79 | call k is admitted if and only if for every j <= k the admissions among j..k-1 plus this one stay within capacity + rate * (t_k - t_j) |
| RateLimiter.SpanBound | core/security/rate_limiter.go:48-79 | no span of time admits more than capacity plus rate times its length |
| RateLimiter.StateIsFullHistory | core/security/rate_limiter.go:48-110 | with patient cleanups anywhere in the run, each kept or dropped bucket behaves like the one of the full history |
| RateLimiter.AnswersAreExact | core/security/rate_limiter.go:48-110 | in runs over all addresses with patient cleanups, every answer is the exact one of the full call history of its address |
| RateLimiter.CleanupInvisibleExactly | core/security/rate_limiter.go:98-110 | cleanup with an age changes no answer of any run if and only if age * rate >= capacity |
| RateLimiter.ImpatientIsVisible | core/security/rate_limiter.go:98-110 | below that age some run is admitted that the full history rejects |
| RateLimiter.PatientIsInvisible | core/security/rate_limiter.go:98-110 | from that age on no run shows a difference |
| RateLimiter.TokenBucket.Take | core/security/rate_limiter.go:63-78 | the in-place refill and consumption take the step of the value-level bucket |
| RateLimiter.RateLimiter.Allow | core/security/rate_limiter.go:48-79 | the bucket of this address alone takes the step; a bucket created moments before the refill counts as full |
| RateLimiter.RateLimiter.Cleanup | core/security/rate_limiter.go:100-110 | drops exactly the buckets last refilled before now - maxAge |
| Windows.Prune | core/security/traffic_rules.go:72-78 | the pruning loop keeps, in order, exactly the records later than the cutoff |
| Windows.SinceCount | core/security/traffic_rules.go:72-78 | as many records are kept as positions of the log are later than the cutoff |
| Windows.SinceTwice | core/security/traffic_rules.go:72-78 | pruning early and again later is pruning once with the later cutoff |
| TrafficRules.RecordRequest | core/security/traffic_rules.go:62-85 | only the key's record changes: pruned to the window, with the call appended, and its length returned |
| TrafficRules.CleanTracker | core/security/traffic_rules.go:142-154 | removes exactly the keys whose last call is older than the window |
| TrafficRules.CleanupLeavesExactly | core/security/traffic_rules.go:136-155 | after a cleanup anywhere in a run, exactly the addresses with a burst check and the keys with an endpoint check no older than the window are tracked |
| TrafficRules.BurstAnswersExact | core/security/traffic_rules.go:88-94 | in every run with cleanups anywhere, the check passes if and only if the burst checks ever made for the address within the window, counted as operations of the run, rejected ones included, number at most the threshold |
| TrafficRules.EndpointAnswersByKey | core/security/traffic_rules.go:98-105 | in every run with cleanups anywhere and for all addresses and endpoints, the check passes if and only if the checks ever made under its key within the window, counted as operations of the run, number at most the threshold |
| TrafficRules.EndpointAnswersExact | core/security/traffic_rules.go:98-105 | in every run, that count is the count of the pair's own calls if and only if no colliding pair was checked within the window; the check passes exactly by the pair's count then, and never passes when that count is over the threshold |
| TrafficRules.PairsAmongKeys | core/security/traffic_rules.go:62-105 | the calls of a pair are among those of its key, and all of them exactly without an intruding call |
| TrafficRules.SeparableAnswersExact | core/security/traffic_rules.go:98-105 | addresses without a slash and endpoints that start with one keep the pairs apart in every run |
| TrafficRules.KeysCollideExactly | core/security/traffic_rules.go:102-102 | two pairs share a key if and only if they are equal or one address extends the other by a colon and a part that the other endpoint starts with |
| TrafficRules.CollisionChangesAnswer | core/security/traffic_rules.go:98-105 | for every two different pairs that share a key and all limits, a run in which a check is rejected although the pair's own count is within the threshold |
| TrafficRules.PairsKeptApartExactly | core/security/traffic_rules.go:98-105 | for all limits and any set of pairs: all runs over these pairs answer every check by the count of its own pair if and only if no two of the pairs collide |
| TrafficRules.EndpointKeyInjective | core/security/traffic_rules.go:102-102 | among addresses without a slash and endpoints that start with one, different pairs have different keys |
| TrafficRules.EndpointKeyCollides | core/security/traffic_rules.go:102-102 | there are two different pairs with the same key |
| TrafficRules.Rules.CheckBurst | core/security/traffic_rules.go:88-94 | the object takes the value-level step and answers by the count left in the window |
| TrafficRules.Rules.CheckEndpointAbuse | core/security/traffic_rules.go:98-105 | the same for the endpoint tracker |
| TrafficRules.Rules.CleanUp | core/security/traffic_rules.go:136-155 | both trackers are cleaned, each with its own window |
| Middleware.FeaturesIgnoreForgetting | core/inference/middleware.go:82-282 | in every run with prunings anywhere, the features are those of the full, never pruned logs of the address |
| Middleware.WindowsFaithful | core/inference/middleware.go:82-148 | after every operation the retained and the full logs agree on the last 60 seconds |
| Middleware.FeaturesMean | core/inference/middleware.go:202-282 | the six features by positions of the two logs: calls within 10 and 60 s and per endpoint; with n responses within 60 s whose latencies add up to n * avg, the error rate times n is the number of statuses from 400 on, the spike asks for a latency above 100 ms and 1.5 * avg, and the variance times n - 1 is the sum of squared distances from avg |
| Middleware.CountsFromRun | core/inference/middleware.go:82-238 | in every run with prunings anywhere, both counts and the error rate are those of all operations on the address within the last 10 and 60 s |
| Middleware.OnlyRecentIsRetained | core/inference/middleware.go:80-148 | an operation leaves only the last 60 s of its address, PruneAll only those of all, and no empty log |
| Middleware.FeaturesInRange | core/inference/middleware.go:202-282 | the 10 s count is at most the 60 s count, the error rate lies in [0, 1], the variance is nonnegative, the spike is 0 or 1 |
| Middleware.MLProtection.PruneIp | core/inference/middleware.go:82-111 | both logs of this address lose what is older than 60 s, an empty one loses its key |
| Middleware.MLProtection.PruneEvery | core/inference/middleware.go:121-147 | one loop prunes every key and drops the empty ones |
| Middleware.MLProtection.PruneAllIps | core/inference/middleware.go:115-148 | both maps are pruned |
| Middleware.MLProtection.RecordBackendResponse | core/inference/middleware.go:171-186 | appends the response and prunes this address |
| Middleware.MLProtection.RecordRequest | core/inference/middleware.go:190-282 | appends the request, prunes, and returns the features of what is retained |
| Middleware.MLProtection.Compute | core/inference/middleware.go:202-282 | the accumulator loops compute the features of the two windows |
| Middleware.MLProtection.CountRequests | core/inference/middleware.go:206-218 | one pass counts both windows and the endpoint histogram of the longer one |
| StateExport.EveryRunConserves | core/inference/state_export.go:85-161 | in every interleaving of producers, worker, ticker and closer: file and write buffer hold the oldest accepted snapshots, one terminated line each, in-hand and queue the rest, in order; offered = accepted + dropped |
| JsonLines.EncodedSplits | core/inference/state_export.go:119-127 | where marshalling yields no newline: splitting the bytes at byte 10 returns the output of each record that marshals, in order, each terminated, and nothing else |
| StateExport.CloseGuarantee | core/inference/state_export.go:164-183 | when Close has returned, the lines of the file are exactly the snapshots accepted up to the worker's final look at the queue, at least those accepted before the close; later ones are still queued |
| StateExport.QuietCloseLosesNothing | core/inference/state_export.go:164-183 | if producers stopped before Close, the lines of the file are everything accepted |
| StateExport.LateSnapshotsAreLost | core/inference/state_export.go:85-183 | for any list of snapshots that fits into the queue, a run that accepts them, returns from Close with an empty file, and counts none as dropped |
| StateExport.HistoriesGrow | core/inference/state_export.go:85-183 | accepted snapshots and file only grow, and after Close the file never changes |
| StateExport.WorkerStepsFinish | core/inference/state_export.go:111-158 | every step of the worker other than a flush on a tick brings it closer to its exit |
| StateExport.WorkerCanFinish | core/inference/state_export.go:111-158 | while Close waits, the worker always has such a step |
| TrafficLogger.EveryRunKeepsInv | pipeline/logging/traffic_logger.go:144-193 | in every interleaving the lines of file and write buffer together are exactly the entries logged, in order |
| TrafficLogger.ClosedStaysClosed | pipeline/logging/traffic_logger.go:154-191 | a step after the close mark logs nothing, and after Close the file stays as it is |
| TrafficLogger.LoggedFixedSinceClosed | pipeline/logging/traffic_logger.go:154-156 | nothing is ever logged after the close mark |
| TrafficLogger.CloseLosesNothing | pipeline/logging/traffic_logger.go:196-228 | when Close has returned, the lines of the file are exactly the entries offered while the logger was open |
| TrafficLogger.FlusherStepsFinish | pipeline/logging/traffic_logger.go:169-193 | every step of the flusher other than seeing a tick brings it closer to its end |
| TrafficLogger.FlusherCanStop | pipeline/logging/traffic_logger.go:169-193 | after the mark, at most two such steps are left, they are possible, and they end the flusher |
| FeatureExtractor.EvaluationTimes | pipeline/feature_extraction/feature_extractor.py:186-214 | the loop terminates; the times are the inhabited moments of the schedule, at least a step apart; when the step does not exceed the window every request lies in some evaluated window |
| FeatureExtractor.Advance | pipeline/feature_extraction/feature_extractor.py:206-214 | the next moment of the schedule; the termination measure drops by one at least |
| FeatureExtractor.WindowsPerRequest | pipeline/feature_extraction/feature_extractor.py:186-223 | no request lies in more than floor(window / step) + 1 evaluated windows, jumps included |
| FeatureExtractor.WindowsWithIsCardinality | pipeline/feature_extraction/feature_extractor.py:214-232 | windows that hold a request are counted as positions |
| FeatureExtractor.CountInIsCardinality | pipeline/feature_extraction/feature_extractor.py:214-232 | requests in a window are counted as positions |
| FeatureExtractor.JumpSkipsExactly | pipeline/feature_extraction/feature_extractor.py:206-212 | of the moments end + k * step below its landing point, a jump passes over one whose window holds a request if and only if the first still reaches back to the latest request or the one at or after the next request reaches back to the latest request by then; always when the step does not exceed the window |
| FeatureExtractor.LastPassedOver | pipeline/feature_extraction/feature_extractor.py:206-212 | exactly one moment of the grid lies from the next request on and below the landing point |
| FeatureExtractor.CountsNestExactly | pipeline/feature_extraction/feature_extractor.py:186-232 | for every step: the ten-second count is at most the window count in all evaluated windows of all logs if and only if the window is at least ten seconds long |
| LeadTime.DetectEpisodes | forecasting/evaluation/lead_time.py:127-178 | exactly the maximal runs at or above the threshold, in order, disjoint and not adjacent |
| LeadTime.ScanEpisode | forecasting/evaluation/lead_time.py:152-173 | from an onset: the maximal run, with its first maximum as peak |
| LeadTime.EpisodesAreDetermined | forecasting/evaluation/lead_time.py:127-178 | two episodes that share a step are equal, peak and stage included |
| LeadTime.DetectBefore | forecasting/evaluation/lead_time.py:207-250 | detected if and only if a block of enough consecutive confident attack predictions lies in the 20 steps before onset; the lead is the distance to the farthest such block, with its streak length |
| LeadTime.DetectedExactly | forecasting/evaluation/lead_time.py:207-250 | from stages and probabilities alone: detected if and only if from some step, at most 20 before onset, predictions reach the threshold for as long as asked, each with enough probability for its own class (for some class, when the stage is none); the first correct prediction is the farthest such step |
| LeadTime.HigherPredictionsLeadMore | forecasting/evaluation/lead_time.py:219-239 | without probabilities, raising predicted stages anywhere never lowers a lead |
| LeadTime.OtherClassesDoNotCount | forecasting/evaluation/lead_time.py:223-230 | changing the probabilities of other classes than the predicted one changes no result |
| LeadTime.EvaluateDetections | forecasting/evaluation/lead_time.py:180-252 | the episodes are all the maximal runs of the true stages, in order, with one such result for each |
| LeadTime.LeadIsUnique | forecasting/evaluation/lead_time.py:210-246 | the characterisation determines the lead |
| LeadTime.LeadMonotone | forecasting/evaluation/lead_time.py:200-239 | raising the confidence threshold or the required streak never increases a lead |
| LeadTime.ComputeFalseAlarms | forecasting/evaluation/lead_time.py:254-318 | the numbers of non-attack steps, of attack predictions on them outside successful detections, and of those for each known stage, and their rate; all zero without non-attack steps |
| LeadTime.ValidIndices | forecasting/evaluation/lead_time.py:289-296 | exactly the steps between the first correct prediction and the onset of a successful detection |
| LeadTime.CallsDivide | forecasting/evaluation/lead_time.py:298-303 | false alarms plus excused predictions are all attack predictions on non-attack steps |
| LeadTime.BreakdownComplete | forecasting/evaluation/lead_time.py:305-311 | the breakdown adds up to the false alarms if and only if each of them predicts a known stage |
| StateLabeler.LabelState | forecasting/state_labeler.py:22-41 | the label reaches RECON, ESCALATION and SURGE exactly from the three thresholds on |
| StateLabeler.LabelSequence | forecasting/state_labeler.py:44-69 | a step is SUSTAINED if and only if it lies in a maximal SURGE run of at least three steps, and keeps its raw label otherwise |
| StateLabeler.SustainedByScores | forecasting/state_labeler.py:44-69 | a step is sustained if and only if three or more scores in a row around it are at least 0.70 |
| StateLabeler.LabelsMonotone | forecasting/state_labeler.py:22-69 | raising scores anywhere lowers no label |
| StateStore.RunKeepsLog | forecasting/state_store.py:132-280 | over every run of append, flush, committed or failed, and load: the buffer is the end of what entered the memory, each index entry the last 200 of its address; old table and appended states are each once in the table, unflushed, or lost to a failed insert; and table followed by unflushed states is all of them in order if and only if none was lost |
| StateStore.RestartExactly | forecasting/state_store.py:184-280 | when no insert failed: a fresh store loaded from a flushed table has the same buffer if and only if the limit covers it, and the same history of an address if and only if the loaded rows hold enough of its records |
| StateStore.HistoryExactly | forecasting/state_store.py:144-150 | for every n, negative ones included: the answer is the documented most recent n states if and only if there are no records, or 1 <= n and the index keeps as many, or a negative n drops them all |
| StateStore.HistoryFromLog | forecasting/state_store.py:144-150 | for every n the answer is an end of the address's records, of a length that n and the 200 kept determine |
| StateStore.StateStore.GetIpHistory | forecasting/state_store.py:144-150 | the answer in terms of everything that ever entered the store: the end of the address's records, as long as n asks for and the index keeps |
| StateStore.SequencesExactly | forecasting/state_store.py:167-182 | the training sequences are exactly the blocks of consecutive kept states of one address with enough of them, for every window size |
| StateStore.SequencesInOrder | forecasting/state_store.py:167-182 | address by address in the order of their first record, no address twice, block by block: every block of the last 200 records stands once, where the blocks before it end |
| StateStore.RememberRecalls | forecasting/state_store.py:134-140 | one more state keeps buffer, index and key order in agreement with the log |
| StateStore.NewestFirstReversed | forecasting/state_store.py:236-250 | the descending query, read backwards, is the end of the table in order |
| StateStore.StateStore.Append | forecasting/state_store.py:132-142 | the object takes the append step, and its memory stays in agreement with the full log |
| StateStore.StateStore.GetAllSequences | forecasting/state_store.py:167-182 | for every window size the nested loops list, address by address, exactly the blocks of the full log's kept part |
| StateStore.StateStore.FlushToSqlite | forecasting/state_store.py:184-227 | the unflushed states move to the end of the table, and their number is returned; when the insert fails they are in neither place; the memory stays |
| StateStore.StateStore.LoadFromSqlite | forecasting/state_store.py:229-280 | the loaded rows enter the memory and its log in table order, and their number is returned; table and unflushed states stay |
| FlushProtocol.EveryRunKeepsInv | forecasting/state_store.py:184-225 | with any number of flushes in flight, every appended state is in exactly one place |
| FlushProtocol.PersistedOnce | forecasting/state_store.py:184-225 | once all flushes have finished, the table holds each appended state exactly once |
| FlushProtocol.CanPersistAll | forecasting/state_store.py:184-225 | from every reachable state one more flush and the inserts still owed persist everything, each state once |
| FlushProtocol.SomeFlushOvertakes | forecasting/state_store.py:189-225 | a run of two overlapping flushes commits the later one first |
| FlushProtocol.InOrderExactly | forecasting/state_store.py:189-225 | the table is in append order if and only if no insert overtook the insert of an earlier flush; an inversion stays for good |
| DashboardState.Dashboard.RecordLatency | monitoring/dashboard_state.go:212-228 | the ring keeps holding the end of all recorded latencies |
| DashboardState.Dashboard.RecordEvent | monitoring/dashboard_state.go:246-255 | the ring keeps holding the end of all recorded events |
| DashboardState.RingPush | monitoring/dashboard_state.go:222-226 | overwriting the oldest cell and moving the index on appends to the log that the ring stands for |
| DashboardState.Dashboard.SampleIsRecent | monitoring/dashboard_state.go:306-319 | the sample copied out is the multiset of the last min(n, 2000) latencies |
| DashboardState.Dashboard.P99Latency | monitoring/dashboard_state.go:312-333 | the value, rounded to two decimals, of the least real number with at least 99% of the last 2000 latencies at or below it, which is one of them; none only without latencies |
| DashboardState.Rounded | monitoring/dashboard_state.go:332-332 | a whole number of hundredths within half a hundredth of its argument |
| DashboardState.RoundedMonotone | monitoring/dashboard_state.go:332-332 | rounding keeps the order of percentiles |
| DashboardState.RankInRange | monitoring/dashboard_state.go:325-331 | neither index clamp ever fires |
| DashboardState.RankIsP99 | monitoring/dashboard_state.go:324-332 | the nearest rank of the sorted sample is that percentile |
| DashboardState.CountIsCardinality | monitoring/dashboard_state.go:324-332 | the samples at or below a value are counted as positions |
| DashboardState.P99IsUnique | monitoring/dashboard_state.go:312-332 | the characterisation determines the value |
| DashboardState.Dashboard.RecentEvents | monitoring/dashboard_state.go:381-406 | both branches return the last min(n, 50) events newest first, without those that have no timestamp |
| DashboardState.FeedMember | monitoring/dashboard_state.go:386-400 | exactly the events with a timestamp appear |
| DashboardState.FeedPosition | monitoring/dashboard_state.go:381-406 | every dated event appears once, after as many others as there are newer dated events |
| Forecaster.SnapshotBuffer.AddState | core/forecasting/forecaster.go:163-177 | the in-place shift keeps the buffer the last bufferCap snapshots of all ever added |
| Forecaster.Forecaster.Window | core/forecasting/forecaster.go:206-220 | the window has length seqLen, ends in the newest snapshot, and is the end of the history preceded by copies of its first snapshot |
| Forecaster.WindowAt | core/forecasting/forecaster.go:206-220 | each position of the window in terms of the whole history; before the first snapshot, it is the first |
| Forecaster.Forecaster.Predict | core/forecasting/forecaster.go:187-315 | from the whole history: the quiet forecast, the fallback of the newest snapshot, or the softmax of what the model answers to the standardised padded window; an error exactly when the model fails |
| Forecaster.PredictionIsUnique | core/forecasting/forecaster.go:187-315 | history, logits and clock determine the whole forecast: stages, names, confidences, probabilities, risk and lead time |
| Forecaster.QuietIsNormal | core/forecasting/forecaster.go:192-204 | without history: NORMAL at every horizon, rated LOW |
| Forecaster.Scaler.Flatten | core/forecasting/forecaster.go:227-254 | the nested loops fill the input with the standardised window, one snapshot after the other |
| Forecaster.Scaler.FlattenedAt | core/forecasting/forecaster.go:242-252 | feature f of snapshot i stands at index 6i + f, standardised with its own mean and deviation, or 0 and 1 where the scaler lists none |
| Forecaster.Scaler.InputLayout | core/forecasting/forecaster.go:231-252 | six cells a snapshot in the order of training, named one by one; a cell times its divisor plus its mean is the feature |
| Forecaster.Forecaster.Decode | core/forecasting/forecaster.go:277-314 | every horizon is the softmax of its five logits, with its first best stage and that stage's probability, and risk and lead time follow from these |
| Forecaster.Forecaster.HeuristicForecast | core/forecasting/forecaster.go:318-351 | for each range of the newest anomaly score the whole forecast, written out: stages, confidences, probabilities, risk and lead time |
| ForecasterNoCgo.StubForecaster.Predict | core/forecasting/forecaster_nocgo.go:129-175 | this build's own computation yields the quiet forecast or the one written out for the newest score of the history |
| ForecasterNoCgo.StubForecaster.RiskAndLeadTime | core/forecasting/forecaster_nocgo.go:177-212 | the second copy of the risk computation meets the same characterisation |
| ForecasterNoCgo.StubForecaster.FillHorizons | core/forecasting/forecaster_nocgo.go:160-171 | the second copy of the arithmetic, over the result arrays, follows the expected progression at each horizon |
| ForecasterNoCgo.BuildsAgree | core/forecasting/forecaster_nocgo.go:129-175 | two objects, one of each build, fed the same snapshots at any buffer capacities: without a model, or when it fails, their forecasts differ at most in the timestamp |
| Forecaster.Softmax | core/forecasting/forecaster.go:278-310 | the probabilities are a distribution in the ratio of the exponentials of the logits, the stage is the first largest logit, the confidence its probability |
| Forecaster.SoftmaxIsQuotient | core/forecasting/forecaster.go:289-305 | each probability is the exponential of its logit divided by the sum of all of them, although the code shifts the logits first |
| Forecaster.SoftmaxIsUnique | core/forecasting/forecaster.go:278-310 | the logits determine probabilities and stage |
| Forecaster.SoftmaxIgnoresShift | core/forecasting/forecaster.go:281-293 | adding a constant to all logits changes nothing |
| Forecaster.ComputeRiskAndLeadTime | core/forecasting/forecaster.go:354-390 | decided by the first credible surge, or else by the first horizon with a warning |
| Forecaster.RiskIsUnique | core/forecasting/forecaster.go:354-390 | that characterisation determines risk and lead time |
| Forecaster.RiskDropsExactly | core/forecasting/forecaster.go:354-390 | for stages raised anywhere, confidences unchanged, the risk drops if and only if an earlier, less certain surge takes over, or the first warning stops being an alarming escalation, or the only warnings become surges too uncertain to count |
| Forecaster.RiskByFirsts | core/forecasting/forecaster.go:354-390 | the risk is determined by the first credible surge and the first warning |
| Forecaster.ReconMasksEscalation | core/forecasting/forecaster.go:380-387 | raising the first horizon to reconnaissance lowers HIGH to ELEVATED |
| Forecaster.EarlySurgeMasksSurge | core/forecasting/forecaster.go:358-378 | raising the second horizon to a surge lowers CRITICAL to HIGH |
| Forecaster.DoubtfulSurgeMasksEscalation | core/forecasting/forecaster.go:358-389 | raising an uncertain escalation to a surge lowers ELEVATED to LOW |
| Decision.NewThresholdPolicy | core/decision/decision_engine.go:63-71 | succeeds if and only if each of the three actions is the answer to some score, and then keeps both thresholds |
| Decision.ThresholdPolicy.EvaluateCounts | core/decision/decision_engine.go:74-82 | the action is the number of thresholds that the score exceeds |
| Decision.ThresholdPolicy.EvaluateMonotone | core/decision/decision_engine.go:74-82 | a higher score never gets a weaker action |
| RiskAdvisor.FusedMonotone | core/forecasting/risk_advisor.go:147-243 | for every forecast the fused action is at least the base action and monotone in the anomaly score |
| RiskAdvisor.FallbackFusedExactly | core/forecasting/risk_advisor.go:180-239 | with the fallback forecast the fused action is a table in the newest and the current score |
| RiskAdvisor.FallbackThreatExactly | core/forecasting/risk_advisor.go:178-243 | threat level and techniques are a table in the same two scores and the base action |
| RiskAdvisor.RecommendedExactly | core/forecasting/risk_advisor.go:178-239 | for any forecast: blocked if and only if the policy blocks or a suspicious request meets a surge of more than 0.70; let through if and only if the policy does, no such surge meets it, and the first horizon is no escalation of more than 0.60 |
| RiskAdvisor.BaselineIsQuietAdvice | core/forecasting/risk_advisor.go:152-177 | without a forecaster the advisory is the advice of a quiet forecast: the base action, NORMAL |
| RiskAdvisor.WorseHistoryWeakensExactly | core/forecasting/risk_advisor.go:193-209 | a worse newest score weakens the action if and only if it moves from the escalation to the surge band while the request scores low |
| RiskAdvisor.RiskAdvisor.TryCached | core/forecasting/risk_advisor.go:120-126 | the section under the read lock: a live cached forecast, true of a history less than the cache lifetime before, or nothing |
| RiskAdvisor.RiskAdvisor.Refresh | core/forecasting/risk_advisor.go:128-144 | the section under the write lock, from any valid state that other threads left: a cache that is live by now is kept, otherwise a forecast of the present history is made and stored; an error without a forecaster |
| RiskAdvisor.RiskAdvisor.GetOrRefreshForecast | core/forecasting/risk_advisor.go:119-145 | the forecast returned is true of the history now, or of the history when a forecast was made less than the cache lifetime ago |
| RiskAdvisor.RiskAdvisor.Assess | core/forecasting/risk_advisor.go:152-243 | the advisory, threat level and techniques included, follows from that forecast, is stored as the latest, and is never below the base action |
| RiskAdvisor.RiskAdvisor.NewStateKeepsValid | core/forecasting/forecaster.go:163-177 | telemetry that reaches the forecaster's buffer between assessments keeps the cached forecast true of an earlier history |
| RiskAdvisor.ThreatHasTechniques | core/forecasting/risk_advisor.go:193-229 | techniques are named exactly when the threat level is not NORMAL; a strengthened action names CRITICAL when it blocks and HIGH when it throttles |
| RiskAdvisor.ForecastAwarePolicy.Evaluate | core/decision/decision_engine.go:114-131 | for any wrapped engine, in any state of the advisor, the decision is at least the engine's and the fusion of it with the forecast in use |

## Left out

- Floating-point rounding, and 64-bit wrap-around of counters and sizes: reals and unbounded integers instead. Timestamps have no microsecond or RFC 3339 rounding.
- Go's container/list: the list is modelled with front and back pointers instead of a sentinel ring; its order and bijection with the map are the same.
- CacheRuns.FreshAndRecentIsHit: is about caches without a byte cap; under one, an entry also leaves when others outgrow it.
- HmmModel.Forecaster.Fit: does not estimate the Gaussian means and variances, because the density is a parameter of decoding and any parameters are covered.
- MarkovChain.Chain.Fit: a zero smoothed row total is reported as undefined instead of storing NaN rows and marking the chain fitted; likewise in HmmModel.
- Forecaster.Forecaster.Predict: the network itself is a parameter, a function of its input for each call; 32-bit rounding of the input is not modelled, and a division by zero gives a cell without a number.
- Forecaster.SnapshotBuffer.AddState: the repair of a nonpositive capacity is done by the constructor; a forecaster that was never constructed is not modelled.
- RiskAdvisor.RiskAdvisor.GetOrRefreshForecast: composes its two locked sections without another thread in between; that each section keeps its contract from any valid state is what TryCached and Refresh state.
- RiskAdvisor.ForecastAwarePolicy.Evaluate: the engine is any function of the prediction, and the assessor is the risk advisor, the only one there is.
- RiskAdvisor.RiskAdvisor.Assess: leaves out the justification texts, which format numbers for readers.
- StateStore.StateStore.FlushToSqlite: is the flush of a single thread; FlushProtocol covers flushes that overlap, where inserts are assumed to succeed.
- get_time_range, to_records and the data frame export of the state store only filter or copy the buffer.
- Middleware.FeaturesInRange: does not bound the entropy, an uninterpreted function of the endpoint histogram.
- FeatureExtractor.EvaluationTimes: covers one address at a time; grouping by address, unparseable timestamps, baselines, rounding and the CSV output are left out, as is compute_variance, which Middleware proves for the same formula.
- lead_time.py: mean, median and percentile summaries, the cumulative curve and the statistical comparison.
- state_labeler.py: dataset and CSV export.
- attack_progression.py: is_escalating, a comparison of two stages.
- Dashboard totals, status counts, average latency and request rate: sums and counters.
- Marshalling failures skip a record (StateExport, TrafficLogger); write errors of the file system are not modelled.
- Goroutines and tickers that only call a cleanup or sweep at intervals: the runs allow it at any moment instead.
- Gin handlers, the reverse proxy, TLS, Prometheus, configuration, the scheduler, request coalescing, model training and report generation.

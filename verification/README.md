# PicoSentry kernels: a Dafny model

PicoSentry scans dependency trees for supply-chain attacks. Around its I/O sit a dozen small algorithmic and
stateful kernels: the typosquat index, the rate limiter, the verdict cache, token validation with backoff,
advisory matching, ecosystem detection, scan accounting, the disk caches, baselines and a test-text mutator.
This project models them and proves what they are for. One file holds one module:

| module | what it models |
|---|---|
| `EditDistance` | single-character edit scripts, the Levenshtein recurrence, the two-row and the cut-off programs |
| `Keyboard` | the distance with half-price substitutions between neighbouring keys |
| `DeleteIndex` | candidate generation by common left-overs after at most two deletions |
| `Trie`, `TrieSearch` | length-bucketed tries and the banded, pruned depth-first walk |
| `CorpusIndex` | the index object, its incremental build, and the brute-force reference it replaces |
| `TyposquatRule` | the typosquat rules on top of the index: what is looked up, and whom a finding names |
| `TyposquatFixtures` | the typosquat generator, the fixture filter, and exactly when the rules report the result |
| `RateLimiter` | token buckets in an ordered dictionary, stale and surplus eviction, `retry_after` |
| `VerdictCache` | time-to-live and capacity eviction of firewall verdicts |
| `TokenAuth` | token registration, backoff, the bounded failure table |
| `Versions`, `PackageNames`, `Advisory`, `OsvRanges`, `AdvisoryDB`, `AdvisoryAnswers` | version tuples, normalised names, OSV records, range membership, the name index, and the way from records to answers |
| `Ecosystems` | the worklist search for manifests |
| `ScanAccounting` | rule selection, grouping, execution records and statistics |
| `DiskCache` | the scan cache and the OSV cache, with their two eviction loops |
| `Baseline` | suppression by three look-up sets |
| `QuoteSwap` | the quote-swapping mutator and an escape-aware reader |
| `Sorting`, `Common` | Python's `sorted`, code-point order of strings, shared definitions |

Objects that the program mutates are classes; loops are loops. Each method is tied to a specification, and the
main results are proved about that specification for every input, run or reachable state.

## Main results

* The two-row program returns the least number of insertions, deletions and substitutions; the number is a metric,
  and symmetry is what makes the argument swap sound.
* The keyboard distance is the least total cost of an edit script in which a substitution costs one half if the lowered
  characters differ and the table lists one under the other, and every other edit costs one.
* The corpus index gives the brute-force answer in every state of its incremental build: two strings within distance
  two share a left-over of at most two deletions each (completeness of the delete index), and the banded, pruned trie
  walk is exact for every real limit and for the keyboard metric as well.
* Generated typosquats are one or two edits away. A name at distance one is generated, before the final filter and the
  cut to twenty, if and only if it adds no character but lower-case letters and digits. A rule names the origin of a
  generated name of at least four characters if and only if the origin is in the corpus, the generated name is neither
  popular nor known as legitimate itself and long enough for the rule, and, outside npm, no listed match precedes it.
* A client that is not popped gets at most burst + rps * T grants in any window, and stale deletion never changes a
  decision, if burst <= 300 * rps. For every limiter with a larger burst a run is constructed that breaks both. The queue
  is always sorted by each client's last grant or entry, so the popped client is the one that waited longest.
* With one time-to-live, and every `put` at a later clock reading than the ones before it, an unexpired key is in the
  verdict cache exactly when it is among the `max_entries` most recently stored keys.
* No registered token ever has failures on record, so it always validates. A token whose row counts 5 + m failures had
  its last evaluated failure at least the backoff sum after the m-th before it, whatever was evicted; while the table
  never fills, that holds of all its failures from the fifth on.
* Comparing parsed versions is section 11 of Semantic Versioning 2.0.0, a strict total order that never raises; a
  single-interval range agrees with the OSV schema's evaluation if and only if its bounds are in order, and a range of
  ascending intervals if and only if it has just one, even where one starts at the version that fixes the last.
* A database loaded from records of ordered single intervals answers a query with one advisory, read from its own entry,
  for each accepted entry whose name is equivalent and which the schema flags or lists, in record order.
* A rule is executed if and only if it is registered, requested, and every filter has its ecosystem detected, counts
  the rule as a cross-ecosystem one, or has no prefix of it. Every rule a scan is about gets exactly one record, and
  it is the right one: not registered, dropped by the first filter that does so, or what its function did. No finding
  of a completed function is lost, and both breakdowns sum to the number of findings.
* However the clock runs, all puts of a scan cache keep the directory within `max_entries + 49` entries if and only if it
  held at most `max_entries` when the cache was opened.
* The mutated text is read back unchanged for every random choice if and only if every literal is clean for both other
  quotes and no literal follows an unmatched quote.

## Where a promise does not hold as stated

* `scripts/expand_corpus_to_6k.py:58-67` says the filter leaves the typos the scanner detects. The rules also skip
  names that are popular or known as legitimate (`picosentry/scan/rules/typosquat.py:185-192`), outside npm name the
  closest match only, and for three-character typos want the real name to be curated and, if longer, to start alike
  (`picosentry/scan/rules/corpus_index.py:198-210`). `KeptPairIsReportedIff` gives the exact condition; the inputs
  "ext", "preact" and "preactt" show the three ways to fail it (`KeptPairCanBeMissed`, `PopularTypoIsSkipped`,
  `CloserNameHides`).
* `scripts/generate_corpus_fixtures.py:484-516` misses some alphanumeric names at distance one: `NeighbourIsVariantIff`
  says which, `CapitalIsNotGenerated` gives "React" for "react".
* The comments of `typosquat_variants` announce substitutions, deletions, insertions, double substitutions and
  transpositions. For an alphanumeric name whose first two characters are not digits, exactly the twenty names with a
  digit in front or in place of the first character survive the cut (`OnlyDigitsSurvive`); "preact" for "react" does not
  (`PreactIsCut`).
* The entry cap of the scan cache is enforced on every fiftieth put of one cache object, and opening a directory enforces
  nothing. A scan opens its own cache and puts at most once (`picosentry/scan/cli_service.py:376`, `453`), so the cap
  never comes into force: every path ever written stays (`OnePutPerOpening`), and n scans of new targets leave n more
  files (`OpeningsExceedAnyBound`). `BoundHoldsIff` is the exact condition for one cache object.
* `picosentry/scan/rules/corpus_index.py:416` calls the indexed lookup a drop-in replacement for the brute-force scan.
  With the same curated names it is. Without any, the scan takes the whole corpus as curated: `DefaultsAgreeIff` says
  when the answers agree, `DefaultsDiffer` gives "nex" and `EmptyDefaultsDiffer` the empty query.
* The window bound of the rate limiter fails when the burst exceeds 300 seconds' worth of tokens
  (`WindowBound`, `LargeBurstBreaksBound`).
* Expired entries may outlive newer keys in the verdict cache, because a lookup deletes the key it finds expired and
  no other: `ExpiredEntryLingers` builds such a cache, `PutKeepsOnlyRecentIff` says which `put` causes it, and
  `Stats` removes it.
* That no registered token has failures on record is lost by registering one that has; `AddToken` says exactly when.
  Such a token would wait out its backoff once it has five failures; `RegisterAfterFailure` builds the state. The
  program registers tokens at start-up only, when the table is empty.
* A range whose upper bound lies below its lower bound, or equals it and is listed first, is evaluated differently by
  the OSV schema (`IntervalAgreesIff`). Of several intervals in one range the reader keeps the last event of each kind:
  that is the last interval, or a range that contains nothing when the last interval is open or ends with
  `last_affected` after some earlier `fixed` (`OnlyTheLastIsKept`). So it agrees with the schema only for a single
  interval (`AgreesIffOneInterval`); "fixed in 2.0.0, reintroduced in 3.0.0" is never flagged
  (`ReintroducedIsNeverFlagged`).
* An empty query raises an IndexError exactly when a curated name of four letters or more lies within the limit
  (`CrashesIff`, `EmptyQueryRaises`); given the same curated names, both search routes do so on the same inputs. At
  the limit of two that the rules use it does not happen (`AnswerIsListing`).

## Model

| member | source | states |
|---|---|---|
| EditDistance.Distance | scripts/expand_corpus_to_6k.py:45-55 | the result is the least length of an edit script from one string to the other, after the swap too |
| EditDistance.LevIsEditDistance | scripts/expand_corpus_to_6k.py:45-55 | some edit script attains the recurrence and none is shorter |
| EditDistance.NoShorterScript | scripts/expand_corpus_to_6k.py:45-55 | every edit script is at least as long as the distance |
| EditDistance.SomeScript | scripts/expand_corpus_to_6k.py:45-55 | a script of exactly that length exists |
| EditDistance.EditMovesByOne | scripts/expand_corpus_to_6k.py:45-55 | one insertion, deletion or substitution changes a string by distance at most one |
| EditDistance.LevSymmetric | scripts/expand_corpus_to_6k.py:47-48 | the distance is symmetric, which the argument swap relies on |
| EditDistance.LevZeroIffEqual | scripts/expand_corpus_to_6k.py:45-55 | the distance is zero exactly for equal strings |
| EditDistance.LevTriangle | scripts/expand_corpus_to_6k.py:45-55 | triangle inequality |
| EditDistance.LevBounds | picosentry/scan/rules/corpus_index.py:98-100 | the distance is at least the difference in length |
| EditDistance.DistanceWithin | picosentry/scan/rules/corpus_index.py:47-76 | the cut-off program returns the distance, or limit + 1 when it is larger, for every limit |
| EditDistance.RowMinimumIsFinal | picosentry/scan/rules/corpus_index.py:73-74 | a whole row above the limit cannot come back under it, so stopping early is sound |
| Keyboard.WeightedDistance | picosentry/scan/rules/typosquat_utils.py:41-86 | both full programs compute the least cost of an edit script, swap and empty string included |
| Keyboard.WeightedSymmetric | picosentry/scan/rules/typosquat_utils.py:64-65 | the keyboard distance is symmetric for every neighbour table |
| Keyboard.UnitIsLev | picosentry/scan/rules/typosquat_utils.py:41-60 | without neighbours the weighted distance is Levenshtein |
| Keyboard.KeyboardIsLeastCost | picosentry/scan/rules/typosquat_utils.py:63-86 | the keyboard distance is the least total cost of an edit script, priced by the lowered characters and the table |
| Keyboard.EditMovesByCost | picosentry/scan/rules/typosquat_utils.py:75-82 | no edit changes the distance by more than it costs |
| Keyboard.WeightedTriangle | picosentry/scan/rules/typosquat_utils.py:63-86 | triangle inequality for either metric |
| Keyboard.NoNeighboursIsLev | picosentry/scan/rules/typosquat_utils.py:63-86 | with an empty table it is Levenshtein |
| Keyboard.WeightedBounds | picosentry/scan/rules/corpus_index.py:98-100 | at least the difference in length, for either metric |
| DeleteIndex.CommonLeftOver | picosentry/scan/rules/corpus_index.py:30-38 | two strings within distance k share a string left over after at most k deletions from each |
| DeleteIndex.JoinIsComplete | picosentry/scan/rules/corpus_index.py:30-38 | the enumerated left-overs of query and name intersect whenever the names are within the limit |
| DeleteIndex.IndexName | picosentry/scan/rules/corpus_index.py:261-280 | the name is entered under exactly its left-overs of up to two deletions, everything else is kept |
| DeleteIndex.Upsert | picosentry/scan/rules/corpus_index.py:264-270 | one dictionary entry gains the name, single or list, all others stay |
| DeleteIndex.Candidates | picosentry/scan/rules/corpus_index.py:290-311 | the candidates are the names that share an enumerated left-over with the query |
| DeleteIndex.CandidatesComplete | picosentry/scan/rules/corpus_index.py:283-318 | over a complete index no name within the limit is missing |
| Trie.AddNameStores | picosentry/scan/rules/corpus_index.py:154-160 | inserting a name stores it at the node it spells and changes nothing else |
| Trie.AtAddName | picosentry/scan/rules/corpus_index.py:154-160 | which paths exist after an insertion and what they hold |
| TrieSearch.BandedRow | picosentry/scan/rules/corpus_index.py:374-407 | the banded row agrees with the true row wherever either is within the limit; the pruning minimum is right |
| TrieSearch.DeadRowStaysDead | picosentry/scan/rules/corpus_index.py:93-96 | once a whole row exceeds the limit, so does every longer name |
| TrieSearch.Expand | picosentry/scan/rules/corpus_index.py:381-407 | a child that is not pushed leads to no match |
| TrieSearch.SearchBanded | picosentry/scan/rules/corpus_index.py:337-407 | the walk terminates and reports every near name once with its exact distance, for any real limit |
| CorpusIndex.SearchLengthBuckets | picosentry/scan/rules/corpus_index.py:215-233 | walking only the tries of nearby lengths loses nothing |
| CorpusIndex.SearchDeletes | picosentry/scan/rules/corpus_index.py:283-317 | the delete path reports the same names with the same distances |
| CorpusIndex.BuildTries | picosentry/scan/rules/corpus_index.py:122-124 | the tries hold every corpus name, by length |
| CorpusIndex.Select | picosentry/scan/rules/corpus_index.py:198-213 | guards and order turn the reported names into the specified answer |
| CorpusIndex.CheckTyposquat | picosentry/scan/rules/typosquat_utils.py:89-137 | the brute-force scan gives the specified answer |
| CorpusIndex.AnswerUnique | picosentry/scan/rules/corpus_index.py:212-213 | the specification leaves exactly one answer, order included |
| CorpusIndex.AnswerInOrder | picosentry/scan/rules/corpus_index.py:212-213 | nearest first, at equal distance the name that comes first in code-point order |
| CorpusIndex.CrashesIff | picosentry/scan/rules/corpus_index.py:204-210 | the IndexError of the empty query, in terms of the arguments |
| CorpusIndex.EmptyQueryRaises | picosentry/scan/rules/corpus_index.py:204-210 | an input that raises it |
| CorpusIndex.DefaultsAgreeIff | picosentry/scan/rules/corpus_index.py:410-429 | exactly when index and scan agree although the scan takes the whole corpus as curated, empty query included |
| CorpusIndex.EmptyDefaultsDiffer | picosentry/scan/rules/corpus_index.py:410-429 | on the empty query the scan raises and the index without curated names answers |
| CorpusIndex.DefaultsDiffer | picosentry/scan/rules/corpus_index.py:410-429 | "nex" against "next" without curated names tells them apart |
| CorpusIndex.StepFor | picosentry/scan/rules/corpus_index.py:133-135 | that many steps of that size cover the corpus |
| CorpusIndex.CorpusIndex.constructor | picosentry/scan/rules/corpus_index.py:110-138 | a fresh index holds names and curated names, built at once or not at all |
| CorpusIndex.CorpusIndex.AdvanceDeleteBuild | picosentry/scan/rules/corpus_index.py:246-281 | the index always holds exactly the left-overs of the names before the cursor |
| CorpusIndex.CorpusIndex.FinishDeleteIndex | picosentry/scan/rules/corpus_index.py:235-244 | the build is complete afterwards |
| CorpusIndex.CorpusIndex.NearMatches | picosentry/scan/rules/corpus_index.py:162-213 | the specified answer in every build state, one step of build per plain query and none otherwise |
| CorpusIndex.IndexedEqualsBruteForce | tests/scan/test_corpus_index.py:141-159 | index and brute force return equal lists |
| TyposquatFixtures.VariantWithinTwo | scripts/generate_corpus_fixtures.py:484-516 | every generated name is at distance one or two |
| TyposquatFixtures.NeighbourIsVariantIff | scripts/generate_corpus_fixtures.py:487-514 | a name at distance one is generated if and only if it adds nothing but lower-case letters and digits |
| TyposquatFixtures.CapitalIsNotGenerated | scripts/generate_corpus_fixtures.py:487-516 | "React" is one edit from "react", passes the filter and is not generated |
| TyposquatFixtures.TyposquatVariants | scripts/generate_corpus_fixtures.py:484-516 | the first twenty in order of all variants that pass the filter |
| TyposquatFixtures.IsVariantIff | scripts/generate_corpus_fixtures.py:487-513 | the five kinds of variant in terms of the name's characters |
| TyposquatFixtures.OnlyDigitsSurvive | scripts/generate_corpus_fixtures.py:515-516 | for names that do not start with digits, the answer is exactly twenty names with a digit in front or first |
| TyposquatFixtures.LedByDigit | scripts/generate_corpus_fixtures.py:487-514 | a variant that starts with a digit is one of those twenty |
| TyposquatFixtures.PreactIsCut | scripts/generate_corpus_fixtures.py:515-516 | "preact" is not among the names returned for "react" |
| TyposquatFixtures.AddPairs | scripts/generate_corpus_fixtures.py:499-508 | the nested loops add exactly the double substitutions |
| TyposquatFixtures.DetectableTypos | scripts/expand_corpus_to_6k.py:58-81 | exactly the detectable pairs, each at its first occurrence, in order |
| TyposquatFixtures.GeneratedTyposSurvive | scripts/expand_corpus_to_6k.py:58-81 | a generated name survives the filter exactly if it has four characters or is one edit away |
| TyposquatFixtures.KeptPairIsListedIff | picosentry/scan/rules/corpus_index.py:198-210 | exactly when the index lists the real name for a kept typo, for either metric |
| TyposquatFixtures.KeptPairIsReportedIff | scripts/expand_corpus_to_6k.py:58-67 | exactly which kept pairs a rule reports |
| TyposquatFixtures.GeneratedTypoIsReportedIff | scripts/generate_corpus_fixtures.py:484-516 | exactly when a rule names the origin of a generated name of four characters or more |
| TyposquatFixtures.KeptPairCanBeMissed | scripts/expand_corpus_to_6k.py:58-67 | "ext" is kept for "next" and no rule names "next" for it |
| TyposquatFixtures.PopularTypoIsSkipped | picosentry/scan/rules/typosquat.py:185-192 | "preact" is a kept variant of "react" and leads to no finding |
| TyposquatFixtures.CloserNameHides | picosentry/scan/rules/typosquat.py:194-197 | for "preactt" only npm names "react", the shared rule names "preact" instead |
| TyposquatRule.NamesIff | picosentry/scan/rules/typosquat.py:185-197 | exactly when a rule names a corpus name for a dependency |
| TyposquatRule.AnswerIsListing | picosentry/scan/rules/corpus_index.py:410-429 | the lookup never raises at the rules' limit and lists the admitted near names in order |
| TyposquatRule.CheckAgainstIndex | picosentry/scan/rules/corpus_index.py:410-429 | dropping the dependency's own name changes nothing |
| TyposquatRule.Inspect | picosentry/scan/rules/typosquat.py:179-197 | at most one finding per dependency, with the foremost match, for names that are looked up |
| TyposquatRule.FindingUnique | picosentry/scan/rules/typosquat.py:194-229 | the specification leaves one finding per dependency |
| TyposquatRule.DetectDependencies | picosentry/scan/rules/typosquat.py:172-234 | the findings of all dependencies, one each, in order |
| TyposquatRule.DetectNpm | picosentry/scan/rules/typosquat.py:631-724 | npm inspects its own name first, then the dependencies, and names all matches |
| RateLimiter.WindowBound | picosentry/scan/auth.py:439-459 | at most burst + rps * T grants in any window of any run |
| RateLimiter.LargeBurstBreaksBound | picosentry/scan/auth.py:427-434 | with a larger burst a run breaks the bound and differs from a limiter that never deletes |
| RateLimiter.StaleDeletionIsInvisible | picosentry/scan/auth.py:427-434 | deleting stale buckets changes no decision of an unpopped client |
| RateLimiter.DefaultBurstIsSmall | picosentry/scan/auth.py:424-425 | the default burst is within the bound that makes this true |
| RateLimiter.OtherLevel | picosentry/scan/auth.py:427-437 | what another client's request does to a client's level |
| RateLimiter.OwnLevel | picosentry/scan/auth.py:443-459 | a grant costs one token, a denied poll costs nothing |
| RateLimiter.TableBounded | picosentry/scan/auth.py:436-451 | at most max_buckets + 1 buckets in every reachable state |
| RateLimiter.TableReaches | picosentry/scan/auth.py:436-451 | and that many are reached by that many clients at once |
| RateLimiter.PoppedOnlyWhenCrowded | picosentry/scan/auth.py:436-437 | a popped client had max_buckets fresh clients behind it |
| RateLimiter.OthersKeepOrder | picosentry/scan/auth.py:436-459 | a request leaves any two other clients in their order |
| RateLimiter.QueueByLastGrant | picosentry/scan/auth.py:436-459 | over every run the queue is sorted by the time of each client's last grant or entry |
| RateLimiter.PoppedIsEarliest | picosentry/scan/auth.py:436-437 | so the popped client has the earliest such time of those that stay |
| RateLimiter.LeftAfterEviction | picosentry/scan/auth.py:427-437 | exactly who is left: clients seen in the last 300 seconds with fewer than max_buckets such clients behind them |
| RateLimiter.GrantMovesToBack | picosentry/scan/auth.py:453-459 | a grant moves the client to the back, a denial does not |
| RateLimiter.RetryAfterSuffices | picosentry/scan/auth.py:461-471 | waiting as told, the next request is granted, denied polls and other clients notwithstanding |
| RateLimiter.RetryAfterIsTight | picosentry/scan/auth.py:470-471 | more than a second earlier it is denied |
| RateLimiter.SoundStep | picosentry/scan/auth.py:439-459 | every bucket stays between nothing and a full burst and in the past |
| RateLimiter.Limiter.constructor | picosentry/scan/auth.py:418-425 | empty table, default burst of twice the rate |
| RateLimiter.Limiter.Evict | picosentry/scan/auth.py:427-437 | stale buckets go, then the front of the queue until the cap holds; exactly who is left |
| RateLimiter.Limiter.Check | picosentry/scan/auth.py:439-459 | the decision and the tokens left, in terms of rate, burst and elapsed time; the table follows the step of the runs above |
| RateLimiter.Limiter.RetryAfterSeconds | picosentry/scan/auth.py:461-471 | the seconds the two results above speak of |
| VerdictCache.PutKeepsConsistent | picosentry/firewall/cache.py:46-54 | after a put, unexpired keys are stored exactly if they are among the most recent |
| VerdictCache.OtherKeyAfterPut | picosentry/firewall/cache.py:49-52 | evicting the entry that expires first is evicting the least recent key |
| VerdictCache.DropKeepsConsistent | picosentry/firewall/cache.py:38-42 | dropping expired entries keeps that |
| VerdictCache.PutKeepsOnlyRecentIff | picosentry/firewall/cache.py:46-54 | exactly which put leaves an expired key that is no longer recent |
| VerdictCache.ExpiredEntryLingers | picosentry/firewall/cache.py:30-54 | such a cache is reached |
| VerdictCache.VerdictCache.Get | picosentry/firewall/cache.py:30-44 | the verdict a cache of the most recent keys would give; counters account for every call |
| VerdictCache.VerdictCache.MakeRoom | picosentry/firewall/cache.py:49-52 | one entry that expires first is evicted, only for a new key at capacity |
| VerdictCache.VerdictCache.Put | picosentry/firewall/cache.py:46-54 | the new entry is stored, capacity holds, insertions equal evictions plus size; later readings and one time-to-live keep it a cache of recent keys |
| VerdictCache.VerdictCache.EvictExpired | picosentry/firewall/cache.py:73-79 | exactly the expired entries go, each counted |
| VerdictCache.VerdictCache.Stats | picosentry/firewall/cache.py:63-79 | the size is the number of unexpired recent keys |
| VerdictCache.VerdictCache.Clear | picosentry/firewall/cache.py:56-61 | everything restarts from nothing |
| TokenAuth.WrongTokenIsSlowedDown | picosentry/sandbox/auth.py:171-208 | the (5+m)-th evaluated failure comes at least the backoff sum after the fifth |
| TokenAuth.RowIsSlowedDown | picosentry/sandbox/auth.py:171-226 | in any valid state, when a row counts 5+m failures, the token's last evaluated failure comes at least the backoff sum after the m-th before it |
| TokenAuth.EndsHistoryNext | picosentry/sandbox/auth.py:194-208 | the failures a row counts stay the latest of its token, evictions and restarts included |
| TokenAuth.RegisterAfterFailure | picosentry/sandbox/auth.py:144-208 | registering a token that failed leaves a registered token with failures |
| TokenAuth.SpacedAddsUp | picosentry/sandbox/auth.py:183-192 | waits add up along any streak of failures |
| TokenAuth.LimitedIff | picosentry/sandbox/auth.py:171-192 | who has to wait: 1, 2, 4, 8 or at most 16 seconds after the fifth and later failures, and nobody before |
| TokenAuth.TotalWaitClosed | picosentry/sandbox/auth.py:81-83 | the sum in closed form: doubling four times, then sixteen seconds each |
| TokenAuth.TableAfterFailure | picosentry/sandbox/auth.py:194-226 | table bound, spacing and history survive one more failure, evictions included |
| TokenAuth.TrimmedSize | picosentry/sandbox/auth.py:210-226 | a full table always loses a row before one is added |
| TokenAuth.TokenAuth.constructor | picosentry/sandbox/auth.py:85-122 | acceptable tokens are registered, nothing else, no failures |
| TokenAuth.TokenAuth.AddToken | picosentry/sandbox/auth.py:144-169 | registration keeps registered tokens free of failures exactly if this one has none |
| TokenAuth.TokenAuth.CheckBruteForce | picosentry/sandbox/auth.py:171-192 | waiting is required exactly during the backoff, the returned wait is exactly what is left of it, and at most 16 seconds |
| TokenAuth.TokenAuth.EvictStaleFailuresIfNeeded | picosentry/sandbox/auth.py:210-226 | nothing below the cap, else all stale rows, else one oldest row |
| TokenAuth.TokenAuth.RecordFailure | picosentry/sandbox/auth.py:194-204 | one more failure in one row of the trimmed table |
| TokenAuth.TokenAuth.Validate | picosentry/sandbox/auth.py:228-268 | a registered token is always accepted in both modes, nothing else outside development mode, failures are counted exactly when evaluated, in the trimmed table, and the clock says when |
| Versions.KeyOrderIsPrecedence | picosentry/scan/advisory.py:284-317 | tuple comparison never raises and is semantic-version precedence; equal tuples are equal versions |
| Versions.TagsOrder | picosentry/scan/advisory.py:304-314 | tagged identifiers compare as section 11 of Semantic Versioning 2.0.0 asks |
| Versions.BeforeIsStrictTotalOrder | picosentry/scan/advisory.py:284-317 | irreflexive, total and transitive on all parse results |
| PackageNames.NormalizeIdempotent | picosentry/scan/advisory.py:30-34 | normalising twice is normalising once |
| PackageNames.CanonicalIff | picosentry/scan/advisory.py:26-34 | the fixed points are exactly the names in normal form |
| PackageNames.NormalizeAlikeIff | picosentry/scan/advisory.py:26-34 | two names normalise alike exactly when they are equal up to case and separator runs |
| PackageNames.RunsAreInterchangeable | picosentry/scan/advisory.py:26-34 | any run of separators may stand for any other |
| PackageNames.CaseDoesNotMatter | picosentry/scan/advisory.py:33-34 | case does not matter |
| Advisory.ReadEvents | picosentry/scan/advisory.py:122-131 | the last event of each kind is kept |
| Advisory.ReadAffected | picosentry/scan/advisory.py:118-143 | ranges, first fixed version and distinct listed versions of one entry |
| Advisory.FromOsv | picosentry/scan/advisory.py:106-161 | one advisory per accepted entry, with that entry's ranges and no other's |
| Advisory.InListedIff | picosentry/scan/advisory.py:319-334 | what a listing flags: each operator its side of the version, a text without operator the version it parses to |
| Advisory.AcceptedIff | picosentry/scan/advisory.py:107-118 | which entries are read: named, of one of eight ecosystems in any capitals |
| Advisory.IsAffectedIff | picosentry/scan/advisory.py:256-282 | when an advisory concerns a version, in terms of its ranges, fixed version and listings |
| Advisory.VersionAffected | picosentry/scan/advisory.py:256-282 | some range contains the version, or the fallback or a listed version says so |
| OsvRanges.IntervalAgreesIff | picosentry/scan/advisory.py:121-138 | code and OSV schema flag the same versions if and only if the bounds are in order |
| OsvRanges.EntryAgrees | picosentry/scan/advisory.py:107-161 | reading an entry and matching against it agrees with the schema on its own ranges |
| OsvRanges.AgreesIffOneInterval | picosentry/scan/advisory.py:121-138 | for ascending intervals, touching or not, code and OSV schema flag the same versions if and only if there is just one |
| OsvRanges.OnlyTheLastIsKept | picosentry/scan/advisory.py:125-138 | exactly what the kept range flags: the last interval or nothing |
| OsvRanges.FirstIsVulnerable | picosentry/scan/advisory.py:125-138 | the schema flags the first introduced version |
| OsvRanges.ReintroducedIsNeverFlagged | picosentry/scan/advisory.py:125-138 | introduced, fixed, introduced again: the code flags no version, the schema does |
| OsvRanges.EvaluatesInVersionOrder | picosentry/scan/advisory.py:121-138 | the schema's evaluation sorts by version, which leaves ascending events alone |
| OsvRanges.VulnerableInterval | picosentry/scan/advisory.py:256-275 | what the schema's event evaluation says of one interval |
| AdvisoryDB.IndexedIsLinear | picosentry/scan/advisory.py:229-254 | filing under normalised names gives the answers of a linear scan, in load order |
| AdvisoryDB.EquivalentNamesAgree | picosentry/scan/advisory.py:245-254 | any two names that are equal up to separator runs and case get identical answers |
| AdvisoryDB.Database.Append | picosentry/scan/advisory.py:236-238 | every key holds exactly the loaded advisories filed under it |
| AdvisoryDB.Database.Load | picosentry/scan/advisory.py:205-243 | everything read is stored, in order, and counted |
| AdvisoryDB.Database.Check | picosentry/scan/advisory.py:245-254 | the answer of the linear scan |
| AdvisoryDB.Database.AdvisoryCount | picosentry/scan/advisory.py:342-344 | the stored total is the loaded total |
| AdvisoryAnswers.LoadAndCheck | picosentry/scan/advisory.py:205-282 | from records to answers: exactly the entries of equivalent name that the schema flags or lists, each read from itself, in order |
| AdvisoryAnswers.EntryMatches | picosentry/scan/advisory.py:245-282 | an advisory answers a query if and only if its entry's name is equivalent and the schema flags or lists the version |
| AdvisoryAnswers.ScanReadsConcerning | picosentry/scan/advisory.py:245-254 | the linear scan keeps exactly the advisories of those entries |
| Ecosystems.DetectEcosystems | picosentry/scan/engine.py:124-168 | terminates and returns exactly the ecosystems shown within depth five |
| Ecosystems.WithinStep | picosentry/scan/engine.py:138-166 | reachability by paths, one level at a time |
| Ecosystems.PushChildren | picosentry/scan/engine.py:157-166 | pushes the directories to enter and no others |
| Ecosystems.HitIffListed | picosentry/scan/engine.py:146-151 | a listing shows an ecosystem if and only if some entry is a manifest, a marker or, for NuGet, a project file |
| Ecosystems.TakeHits | picosentry/scan/engine.py:147-154 | moves exactly the ecosystems a listing shows |
| Ecosystems.SearchStep | picosentry/scan/engine.py:137-166 | found plus pending stays the answer although found ecosystems are dropped |
| ScanAccounting.SelectRules | picosentry/scan/engine.py:353-413 | the surviving rules, and the first ecosystem that dropped each other one |
| ScanAccounting.DropsIff | picosentry/scan/engine.py:408-413 | a filter drops a rule if and only if its ecosystem is absent, the rule is not cross-ecosystem and starts with a prefix |
| ScanAccounting.CrossRulesRun | picosentry/scan/engine.py:360-367 | a rule in every filter's cross set always runs |
| ScanAccounting.ExecutedIffMayRun | picosentry/scan/engine.py:353-430 | executed rules and skip reasons in terms of the filters |
| ScanAccounting.SkippedExecutions | picosentry/scan/engine.py:415-430 | every requested rule that does not run is reported once, with its reason |
| ScanAccounting.GroupRules | picosentry/scan/engine.py:489-492 | the groups cover the rules once each, one group per function, in registration order |
| ScanAccounting.RunOrderUnique | picosentry/scan/engine.py:526-529 | the order in which groups run is determined by the rules and their functions |
| ScanAccounting.CollectedIffEmitted | picosentry/scan/engine.py:526-595 | a finding is collected exactly when some selected rule's function completed with it |
| ScanAccounting.ExecuteGroup | picosentry/scan/engine.py:531-593 | one execution per rule, with its own count, or none on timeout and failure |
| ScanAccounting.ExecuteGroups | picosentry/scan/engine.py:526-595 | executions for all groups and the findings of those that completed |
| ScanAccounting.TalliesAddUp | picosentry/scan/engine.py:623-628 | each breakdown sums to the number of findings |
| ScanAccounting.Tally | picosentry/scan/engine.py:623-628 | each key is counted as often as it occurs |
| ScanAccounting.OnlyOneEmits | picosentry/scan/engine.py:559-578 | a rule's total is its group's count when no other function emits it |
| ScanAccounting.Scan | picosentry/scan/engine.py:353-651 | every rule concerned has exactly one record, the right one; a rule is executed exactly when the filters let it; the findings are exactly those of completed functions, in run order; counts and breakdowns add up |
| DiskCache.EvictOldest | picosentry/scan/cache.py:136-160 | evicts the shortest oldest-first prefix that brings both caps into force |
| DiskCache.ListOldestFirst | picosentry/scan/cache.py:128-144 | unreadable files go, entries are listed by age |
| DiskCache.EnforceCaps | picosentry/scan/cache.py:124-177 | the same for the whole directory; nothing without caps |
| DiskCache.NewestSurvives | picosentry/scan/cache.py:146-160 | the newest entry goes only if it does not fit on its own |
| DiskCache.ScanCache.constructor | picosentry/scan/cache.py:86-98 | opens the directory as it is and enforces nothing |
| DiskCache.ScanCache.Put | picosentry/scan/cache.py:224-249 | whatever the clock says, never more than the directory opened with plus the writes before the first enforcement, and than max_entries + 49 after it; an entry newer than all others survives unless too big alone |
| DiskCache.BoundHoldsIff | picosentry/scan/cache.py:244-249 | all runs of puts keep max_entries + 49 if and only if the directory held at most max_entries when opened |
| DiskCache.ScanOnce | picosentry/scan/cli_service.py:376-453 | a scan uses the stored result or writes its own, and removes no other file |
| DiskCache.OnePutPerOpening | picosentry/scan/cli_service.py:376-453 | with one cache per scan every path ever written stays |
| DiskCache.OpeningsExceedAnyBound | picosentry/scan/cli_service.py:376-453 | n scans of new targets leave n more files |
| DiskCache.ScanCache.Get | picosentry/scan/cache.py:179-222 | a readable, untampered, young entry is returned; anything else is deleted |
| DiskCache.PutThenGet | picosentry/scan/cache.py:179-249 | what was stored is returned until it expires, if no enforcement came with it or it is the newest and fits |
| DiskCache.OsvEnforceCaps | picosentry/scan/intelligence.py:77-101 | keeps the newest entries that are young enough, and counts the rest |
| DiskCache.SameSurvivors | picosentry/scan/intelligence.py:77-101 | under a count cap alone both caches keep the same entries |
| Baseline.LookupIsPatternMatch | picosentry/scan/models.py:121-141 | the three sets suppress a finding if and only if some entry covers it |
| Baseline.ApplyBaseline | picosentry/scan/models.py:119-147 | what remains, in order; suppressed plus remaining is the original count |
| Baseline.LoadBaseline | picosentry/scan/models.py:78-93 | one entry per reported finding, with defaults |
| Baseline.EntryReads | picosentry/scan/models.py:85-91 | missing keys read as empty, a missing ecosystem as npm |
| Baseline.OwnBaselineLeavesNothing | picosentry/scan/models.py:42-147 | a report used as its own baseline leaves nothing |
| Baseline.LargerBaselineLeavesLess | picosentry/scan/models.py:119-147 | a larger baseline leaves a part of what the smaller left |
| QuoteSwap.RecoversForAllChoicesIff | picosentry/scan/adversarial_mutations.py:151-184 | exactly which texts are read back unchanged for every random choice |
| QuoteSwap.PlainTextsRecover | picosentry/scan/adversarial_mutations.py:151-184 | every text without backslash and unmatched quote is |
| QuoteSwap.CleanRecovers | picosentry/scan/adversarial_mutations.py:151-184 | the round trip from its condition |
| QuoteSwap.ReadEscaped | picosentry/scan/adversarial_mutations.py:167-176 | an escaped clean body is read back whole |
| QuoteSwap.ReadUnclean | picosentry/scan/adversarial_mutations.py:167-176 | any other body is not |
| QuoteSwap.StrayBeforeLiteral | picosentry/scan/adversarial_mutations.py:160-164 | a literal after an unmatched quote spoils some choice |
| QuoteSwap.MutateQuoteSwap | picosentry/scan/adversarial_mutations.py:151-184 | the loop writes the rendered tokens, or nothing when there is no literal |
| QuoteSwap.ScanShape | picosentry/scan/adversarial_mutations.py:157-181 | what the mutator takes a text to be made of |

## Left out

- Floating point: times, tokens and keyboard distances are real numbers. In particular `2 ** (attempts - 5)` times a float overflows in Python after more than a thousand failures of one token; the model has no such limit.
- Concurrency: each method that holds a lock is one atomic step. Clock readings are parameters, two or three per call where the program reads the clock that often.
- Trie nodes: the tries are values, rebuilt along the inserted path; sharing and identity of node objects are not modelled. The bucket dictionary of tries, the delete index and the cursor are fields updated in place.
- TyposquatRule.DetectDependencies: the dependencies are given, as is the name to look up for each (short name or PEP 503 form); reading manifests, severity and texts are not modelled.
- TyposquatRule.DetectNpm: the package name and its dependencies are given; reading manifests, evidence and texts are not modelled.
- TyposquatFixtures.PopularTypoIsSkipped: "preact" is a variant before the cut to twenty, which removes it.
- OsvRanges.AgreesIffOneInterval: several intervals are listed in ascending order and touch at most where the first is fixed; other listing orders are covered for a single interval.
- AdvisoryDB.Database.Load: records are given; reading files, JSON envelopes, symbolic links and staleness are not modelled. Severity, summaries and references are not kept.
- Version parsing: the regular expressions are a parameter with parsing of the empty string as None; the order is proved on parse results. Trimming of listed versions is a parameter too.
- PackageNames.NormalizeIdempotent: lower-casing covers ASCII letters, here and in the other results on names.
- PackageNames.CanonicalIff: lower-casing covers ASCII letters.
- PackageNames.NormalizeAlikeIff: case equality covers ASCII letters.
- AdvisoryDB.EquivalentNamesAgree: case equality covers ASCII letters.
- PackageNames.CaseDoesNotMatter: stated for ASCII letters.
- TokenAuth.TokenAuth.constructor: the tokens are given; their sources, and the refusal to start in enterprise mode when development mode is set, are not modelled.
- TokenAuth.TokenAuth.AddToken: roles and permissions are not modelled, nor are token files and environment variables; development mode is a parameter. The hash is an arbitrary injective function.
- RateLimiter.Limiter.constructor: a negative cap raises a KeyError on first eviction and is excluded by its type.
- ScanAccounting.Scan: rules are arbitrary functions to an outcome; timings, package intelligence, path prefixes, metrics and logging are not modelled.
- DiskCache.ScanCache.Get: the integrity tag is a flag of the file; hashing and JSON text are not modelled, nor are I/O errors.
- Baseline.LoadBaseline: the line-based text form is not modelled.
- Ecosystems.DetectEcosystems: a target that is itself a symbolic link yields nothing, while the program follows it; marker tables and skipped directory names are a parameter; errors other than an unreadable directory are not modelled.
- Everything that is network, command line, reporting or policy merging.

# Verified model of the arbitrage decision engine

This project models, in Dafny, the parts of a Solana arbitrage bot that decide what to trade, and proves what
they promise for all inputs, all runs and all reachable states:

- **The pool graph and the cycle search** (`src/arbitrage/pool_graph.rs`, `pool_ranker.rs`, `types.rs`,
  `cycle_finder.rs`): a mutable multigraph of tokens and pools with top-three eviction and a reverse index, a
  ranker that turns cached probe quotes into edge ratios, and a best-first beam search for profitable cycles,
  optionally restricted to the breadth-first neighborhood of the tokens that changed.
- **Quoting and pair selection** (`pool_quote.rs`): constant-product arithmetic, freshness, sell caps by binary
  search, and the choice of the best cross-DEX buy/sell pair.
- **Pin-set selection** (`track_selection.rs`): readiness tiers, one bundle of two or three pools per mint, and a
  global budget that takes bundles whole.
- **The in-flight registry** (`in_flight.rs`): which route is blocked by which published intent.
- **The trade history server** (`scripts/trades_server.py`): the backward chunked file-tail reader and the
  running cost-basis ledger.
- **Base58** (`verify_pda.py`).

## How the model is laid out

Code that changes things step by step is a class or a method with loops, proved equal to a specification function
or a brute-force description; code made of expressions is functions and lemmas. Modules follow the source:

| files | content |
|---|---|
| `Wrappers`, `Reals`, `Sorting`, `Collections`, `Types` | options, reals, the stable sort, strings and order-free collecting, pool edges |
| `PoolGraph`, `GraphEffects`, `GraphStats`, `PoolGraphObject` | graph states and runs, what one operation does, the published counts, the mutable object |
| `SearchSubgraph`, `SearchNodes`, `PoolRanking`, `RankingLaws`, `SearchPaths`, `BeamTrace`, `SearchMeasure`, `SearchAccounting`, `SearchTrace`, `SearchBound`, `CycleFinder` | the search |
| `RingMarket`, `SearchLimits`, `MissedCycle` | how far its estimates carry: exact conditions, with the markets on which they fail |
| `Cpmm`, `PoolQuotes`, `QuoteLaws`, `RoundTrip`, `RoundTripLaws` | quotes, caps and the best pair |
| `TrackPools`, `TrackBundles`, `BundleShape`, `TrackBudget`, `TrackStats`, `TrackSelection`, `PinSet`, `TrackLaws`, `BundleLaws` | pin selection |
| `InFlight`, `JsonlTail`, `Ledger`, `LedgerLaws`, `Base58` | the four standalone parts |

The modules named `...Laws` say what the specification functions mean in terms of the source's own fields, quotes and
settings, without naming those functions' parts.

Conventions: public keys are natural numbers (only their equality and order matter); `f64` and `Decimal` are exact
reals without NaN; `f64::MIN` and `f64::MAX` used as "nothing yet" are an absent option; a hash map is iterated in
any order and a heap pops any of its best nodes, so every statement holds for all of these orders; a graph, a quote
provider and a ranker configuration do not change during one search; clock reads are parameters, and the selector's
own `now` is never later than the reads made while quoting. A search keeps two ghost records, the log of all
generated nodes and the account of all popped paths with the ratios consulted for them. Both are proved to be true
records of the run, and what was and was not lost is stated over them.

What reading one body would not show:

- A targeted search loses nothing by staying in the breadth-first neighborhood of its seeds, although the walk never
  goes on from base unless base is a seed. This needs the symmetry of every reachable graph.
- The search ends on every finite graph and for every beam width, although the beam does not bound the heap.
- The beam keeps a true top-K per depth, and below the result limit every profitable candidate cycle is either
  reported or has a prefix that a full beam or the profit bound cut.
- **The profit bound is not admissible in general**: it raises the current token's best ratio to the number of
  remaining hops, and a later token can do better. `BoundAdmissibleIff` gives the exact condition over all markets,
  and `EveryRunMissesGoodCycle` a graph of four tokens on which every run of the search returns nothing although a
  cycle well above the threshold is there.
- **The reported return is unclamped for all cycles of n hops if and only if n is at most 36.**
- **`total_pools` and `total_edges` are exact if and only if no pool joins a mint to itself**; a self-loop is stored
  once but counted as half.
- **The in-flight registry is exact if and only if no terminal result finds two routes held by its intent**; with a
  shared id one terminal result leaves a route blocked that should be free (`SharedIdLeavesRouteBlocked`).
- **Ledger conservation holds if and only if no sell exceeds the holding**; the exact surplus is given otherwise.
- The quote-kind and staleness failures of pair selection cannot occur, and the constant-product sell cap never
  changes an amount, apart from pump pools without a known positive fee.

Where code and documentation disagree the model follows the code: the docstring of `compute_pnl_24h` says FIFO cost
basis, the code uses average cost.

## Model

| member | source | states |
|---|---|---|
| `PoolGraphs.AddPoolKeeps` | src/arbitrage/pool_graph.rs:174-205 | Inserting into a pair's list leaves one to three pools with distinct addresses, invents nothing, and leaves no older copy of the pool |
| `PoolGraphs.EvictionDropsLeastLiquid` | src/arbitrage/pool_graph.rs:191-204 | Only a full list evicts, and what is evicted is no more liquid than anything kept |
| `GraphEffects.AddTwiceKeepsBest` | src/arbitrage/pool_graph.rs:69-70 | A self-loop is inserted twice into one list, with the same outcome as once |
| `GraphEffects.UpsertEffect` | src/arbitrage/pool_graph.rs:55-76 | For every pair of mints: the joined pair keeps the most liquid three of its other pools and the upserted one; every other pair only loses an older copy |
| `GraphEffects.RemovalEffect` | src/arbitrage/pool_graph.rs:79-87 | Removal takes the pool out of every pair's list and changes nothing else |
| `GraphEffects.LoadPools` | src/arbitrage/pool_graph.rs:152-170 | Loading pools with distinct addresses into an empty graph stores only listed pools and joins every listed pair |
| `PoolGraphs.UpsertedValid` | src/arbitrage/pool_graph.rs:55-76 | Upsert keeps the invariant: equal lists in both directions, no empty list or map, at most three distinct pools joining exactly that pair, each under its indexed pair |
| `PoolGraphs.RemovedValid` | src/arbitrage/pool_graph.rs:79-87 | Removal keeps the invariant and leaves the pool nowhere |
| `PoolGraphs.BulkUpsertedValid` | src/arbitrage/pool_graph.rs:152-170 | Bulk upsert keeps the invariant |
| `PoolGraphs.EveryRunIsValid` | src/arbitrage/pool_graph.rs:55-170 | Every run of upserts, removals, bulk upserts and clears from the empty graph satisfies the invariant |
| `GraphStatistics.SlotCount` | src/arbitrage/pool_graph.rs:241-255 | The slots counted are twice the stored pools, less one per self-loop |
| `GraphStatistics.TotalPoolsExactIffNoSelfLoops` | src/arbitrage/pool_graph.rs:253-255 | Half the slot count is the number of stored pools exactly if no self-loop is stored |
| `PoolGraphObject.PublishedPoolCount` | src/arbitrage/pool_graph.rs:241-260 | The published total is exact on every valid graph exactly if no self-loop is stored |
| `GraphStatistics.SelfLoopNotCounted` | src/arbitrage/pool_graph.rs:253-255 | A graph of one self-loop stores one pool and counts none |
| `GraphStatistics.LinkCount` | src/arbitrage/pool_graph.rs:245-255 | The links counted are twice the joined pairs, less one per mint joined to itself |
| `GraphStatistics.TotalEdgesExactIffNoSelfPairs` | src/arbitrage/pool_graph.rs:253-254 | Half the link count is the number of joined pairs exactly if no mint is joined to itself |
| `PoolGraphObject.PublishedEdgeCount` | src/arbitrage/pool_graph.rs:241-254 | The published edge total is exact on every valid graph exactly if no mint is joined to itself |
| `PoolGraphObject.PoolGraph.UpsertPool` | src/arbitrage/pool_graph.rs:55-76 | The object takes the upsert step, stays valid and has matching statistics |
| `PoolGraphObject.PoolGraph.BulkUpsert` | src/arbitrage/pool_graph.rs:152-170 | The object takes the bulk step, stays valid and has matching statistics |
| `PoolGraphObject.PoolGraph.RemovePool` | src/arbitrage/pool_graph.rs:79-87 | The object takes the removal step, stays valid, and no list holds the pool |
| `PoolGraphObject.PoolGraph.Clear` | src/arbitrage/pool_graph.rs:145-149 | The object returns to the empty graph |
| `PoolGraphObject.PoolGraph.Neighbors` | src/arbitrage/pool_graph.rs:93-114 | Lists each neighbor exactly once with its pools in descending liquidity |
| `PoolGraphObject.PoolGraph.RefreshStats` | src/arbitrage/pool_graph.rs:241-260 | The two loops count all directed pairs and all slots, and half of each is published |
| `SearchSubgraph.BuildSearchSubgraph` | src/arbitrage/cycle_finder.rs:106-134 | The queue loop yields exactly the layered closure of the known seeds within `max_hops`, plus base |
| `SearchSubgraph.ReachIsWalks` | src/arbitrage/cycle_finder.rs:106-134 | The closure is exactly what walks of at most that many hops from a seed reach, going on from base only if base is a seed |
| `SearchSubgraph.CyclesThroughSeedsSurvive` | src/arbitrage/cycle_finder.rs:105-134 | On every valid graph, every simple cycle at base of at most `max_hops` hops through a seed lies in that closure |
| `SearchNodes.ReachedShape` | src/arbitrage/types.rs:253-309 | A node's depth, path, pools, token and visited set are those of the hops taken |
| `SearchNodes.ReachedLiquidity` | src/arbitrage/types.rs:289-291 | A node's minimum liquidity is the least of its hops' |
| `SearchNodes.ReachedFlag` | src/arbitrage/types.rs:284-307 | The clamp flag says exactly whether some hop's ratio was moved |
| `SearchNodes.RoundLaw` | src/arbitrage/types.rs:168-180 | Rounding goes to a nearest integer, away from zero on ties |
| `SearchNodes.Compounding` | src/arbitrage/types.rs:272-309 | Profit is positive, at most the product of clamped ratios and so at most 1.05^depth, at most ten, and exact while uncapped |
| `SearchNodes.NoCapWithin36Hops` | src/arbitrage/types.rs:150-180 | Up to 36 hops neither the cap nor saturation can occur, and the return is the rounded exact product |
| `SearchNodes.ThresholdSurvivesRounding` | src/arbitrage/types.rs:168-180 | A profit at the threshold still reports at least `min_profit_bps`, for thresholds up to 50000 |
| `SearchNodes.OptimisticBoundIsAdmissible` | src/arbitrage/pool_ranker.rs:218-241 | With the default ratio of a never-ranked token the bound is never below any completion |
| `SearchNodes.CoveredCompletion` | src/arbitrage/pool_ranker.rs:230-241 | A cached ratio whose power reaches the best continuation makes the bound safe for every continuation |
| `SearchLimits.SaturationFreeIffAtMost36Hops` | src/arbitrage/types.rs:168-180 | Over all reachable graphs, providers and search paths: no cycle of n hops has its return clamped if and only if n is at most 36 |
| `SearchLimits.BoundAdmissibleIff` | src/arbitrage/pool_ranker.rs:230-241 | Over all reachable graphs, providers paying at most `best`, open paths with n hops left and cycles ahead of them: the bound is never below the cycle if and only if the cached ratio covers `best`, that is, its n-th power reaches the n-th power of `best`, or `best` itself where that is below 1 |
| `SearchLimits.CoversIffAtLeast` | src/arbitrage/pool_ranker.rs:230-241 | Where the market can gain, covering means being at least `best` |
| `MissedCycle.EveryRunMissesGoodCycle` | src/arbitrage/cycle_finder.rs:206-213 | On a four-token graph every run from an empty cache reports nothing, although a cycle of 1576 bps qualifies at 1200: the second path to a token is cut by the ratio its first path left in the cache |
| `MissedCycle.SearchReturnsNothing` | src/arbitrage/cycle_finder.rs:76-78 | The same on the graph, ranker and finder objects |
| `MissedCycle.GoodCycle` | src/arbitrage/cycle_finder.rs:182-202 | That cycle is a candidate, qualifies, and is worth 1576 bps |
| `PoolRanking.RankedMembers` | src/arbitrage/pool_ranker.rs:131-216 | The ranking of a pair holds exactly its quote-ready, quoted pools, sorted by combined score |
| `PoolRanking.PoolRanker.RankPoolsFrom` | src/arbitrage/pool_ranker.rs:131-180 | Ranks every usable neighbor once, in order, and raises the ratio cache by exactly the clamped ratios seen |
| `PoolRanking.PoolRanker.UpdateMaxEdgeRatio` | src/arbitrage/pool_ranker.rs:270-282 | The cached ratio becomes the maximum of the old one and the updates |
| `PoolRanking.RankedTokenIsCovered` | src/arbitrage/pool_ranker.rs:131-180 | After ranking, the cached ratio of a token is at least that of every usable pool leaving it |
| `RankingLaws.RankedLaw` | src/arbitrage/pool_ranker.rs:131-216 | From graph, quotes and settings alone: a pair's ranking is its stored, ready, quoted pools, once each, with their rate and depth, in descending clamped rate times clamped depth |
| `RankingLaws.NeighborOrderLaw` | src/arbitrage/pool_ranker.rs:168-180 | The neighbors of a token come in descending worth of their best pools |
| `RankingLaws.RatioSeenLaw` | src/arbitrage/pool_ranker.rs:146-182 | The ratios the cache is raised by are exactly the clamped rates of the usable pools |
| `RankingLaws.RankedIffUsable` | src/arbitrage/pool_ranker.rs:131-165 | A hop can be taken exactly if the pair has a stored, ready, quoted pool |
| `SearchPaths.GateNeverRejects` | src/arbitrage/pool_ranker.rs:248-268 | On every path of the search each hop's primary pool has its quote, so the final gate rejects nothing |
| `SearchPaths.CycleIsWellFormed` | src/arbitrage/cycle_finder.rs:182-202 | A qualifying path makes a cycle from base to base of 2 to `max_hops` hops with distinct inner tokens; each hop lists 1 to `pool_alternatives` different usable pools joining it, worth most first, none left out worth more; the clamp flag is exact, the threshold met, a seed passed if targeted, and up to 36 hops the return is the rounded product of the primary pools' clamped rates |
| `SearchPaths.NodeLaw` | src/arbitrage/types.rs:272-309 | Each hop multiplies profit by the clamped rate of its primary pool, up to ten, and the score is the profit times that pool's clamped depth |
| `SearchPaths.QualifiesLaw` | src/arbitrage/cycle_finder.rs:181-199 | Up to 36 hops a closed path must be reported exactly if the product of the clamped rates makes the threshold and, if targeted, it passes a seed |
| `BeamTrace.AdmitKeepsBeam` | src/arbitrage/cycle_finder.rs:255-273 | Each admission keeps the counters equal to the number and least score of the first K nodes of a depth, pushes exactly by the rule, and keeps the discards dominated |
| `BeamTrace.PushedContainTop` | src/arbitrage/cycle_finder.rs:171-173 | Per depth and for every n up to the beam width, n pushed log positions are outscored by no other generated one |
| `BeamTrace.DecisionFollows` | src/arbitrage/cycle_finder.rs:252-273 | The decision from the counters: a node is pushed exactly if it is among the first K of its depth or beats one of those |
| `SearchTrace.PushedContainTopPaths` | src/arbitrage/cycle_finder.rs:171-173 | In a log without repeated paths, n different pushed paths are a true top n of the paths generated at a depth |
| `SearchAccounting.CandidatesAreSearchPaths` | src/arbitrage/cycle_finder.rs:213-245 | Every short simple cycle with usable hops is a path the search could take, targeted or not |
| `SearchAccounting.NothingLostSilently` | src/arbitrage/cycle_finder.rs:179-275 | At the end every qualifying path is reported, or a prefix of it was discarded by the beam or cut by the bound |
| `SearchTrace.StepLogTraced` | src/arbitrage/cycle_finder.rs:218-274 | Each round keeps: every generated path extends a popped path that passed the bound, none is generated twice, and siblings are generated in descending worth |
| `SearchTrace.StepPopTraced` | src/arbitrage/cycle_finder.rs:179-216 | Each round keeps: no path is popped twice, every popped path but base was pushed after its parent was popped, and a ratio is consulted exactly for the open paths |
| `SearchTrace.StepHeapTraced` | src/arbitrage/cycle_finder.rs:179-274 | Each round keeps: the heap holds unpopped pushed paths, once each |
| `SearchTrace.StepBestFirst` | src/arbitrage/cycle_finder.rs:179 | Each round keeps: nothing generated and unpopped outscored a path when it was popped |
| `SearchBound.RankerAnswers` | src/arbitrage/pool_ranker.rs:221-228 | The ranker answers the best ratio of a token once it was ranked, and before that the starting value or 1.5 |
| `SearchBound.StepConsulted` | src/arbitrage/cycle_finder.rs:206-213 | Each round keeps: every recorded ratio is the one determined by what was expanded before it |
| `SearchBound.StepCacheRanked` | src/arbitrage/pool_ranker.rs:270-282 | Expanding a path raises the entry of its last token to that token's best ratio, and changes no other |
| `SearchBound.CutMeansUncovered` | src/arbitrage/cycle_finder.rs:206-213 | A qualifying path that was cut had hops ahead that the consulted ratio does not cover |
| `SearchMeasure.WeightShrinks` | src/arbitrage/cycle_finder.rs:179-275 | Replacing a popped node by its expansions lowers the sum of (degree bound)^(remaining hops), so the loop ends for every beam width |
| `SearchMeasure.DegreeBound` | src/arbitrage/cycle_finder.rs:215-218 | A token's degree is bounded by the number of tokens |
| `CycleFinder.BeamCycleFinder.PopBest` | src/arbitrage/cycle_finder.rs:179 | Takes a node of greatest score off the heap |
| `CycleFinder.BeamCycleFinder.CycleAllHopsQuoted` | src/arbitrage/cycle_finder.rs:137-154 | True exactly if every hop has a primary pool with a quote |
| `CycleFinder.BeamCycleFinder.Complete` | src/arbitrage/cycle_finder.rs:181-202 | A closed node yields its cycle exactly if it qualifies |
| `CycleFinder.BeamCycleFinder.ExpandNode` | src/arbitrage/cycle_finder.rs:218-274 | Every allowed extension of the node is logged once, each entry is a real node extending it by one allowed step, exactly the pushed ones are added, and the beam's rule and dominance are kept |
| `CycleFinder.BeamCycleFinder.Admit` | src/arbitrage/cycle_finder.rs:252-273 | The per-depth counters follow the admission rule |
| `CycleFinder.BeamCycleFinder.FindCyclesInner` | src/arbitrage/cycle_finder.rs:156-281 | Terminates; results are well formed, sorted, at most max(1, `max_results`) and of different popped paths; the log and the pop order are a true record of a best-first run with the beam's rule and exactly the consulted ratios; every popped path was reported, cut, at full depth or expanded in all directions; below the limit everything pushed was popped, so no profitable candidate is missing without a discarded or cut prefix |
| `CycleFinder.BeamCycleFinder.FindCycles` | src/arbitrage/cycle_finder.rs:76-78 | The same for the full search, and the ratio cache it leaves behind |
| `CycleFinder.BeamCycleFinder.FindCyclesThrough` | src/arbitrage/cycle_finder.rs:84-103 | The same for the targeted search; with no known token nothing is searched and no candidate exists |
| `CycleFinder.SearchRound` | src/arbitrage/cycle_finder.rs:179-275 | One round keeps the whole loop invariant, whether the popped path is closed, too deep, cut or expanded |
| `Cpmm.ExactArithmetic` | src/arbitrage/pool_quote.rs:965-986 | For all u64 operands and fees up to 10000 bps no checked step fails and the cast is exact: the result is the exact quotient, absent only for zero operands |
| `Cpmm.SwapKeepsProduct` | src/arbitrage/pool_quote.rs:965-986 | The output is strictly below the reserve and the reserve product never falls |
| `Cpmm.OutMonotone` | src/arbitrage/pool_quote.rs:965-986 | More input is still quoted and gives no less output |
| `Cpmm.RoundTripLoses` | src/arbitrage/pool_quote.rs:965-986 | Buying and selling back on one pool returns strictly less |
| `Cpmm.BisectAccepted` | src/arbitrage/pool_quote.rs:2118-2141 | The search stays in range and returns its lower end or an accepted amount |
| `Cpmm.BisectLargest` | src/arbitrage/pool_quote.rs:2118-2141 | With downward-closed acceptance no larger amount is accepted |
| `Cpmm.BisectUpward` | src/arbitrage/pool_quote.rs:2184-2194 | With upward-closed acceptance the search ends at one of its two ends |
| `Cpmm.BisectLoop` | src/arbitrage/pool_quote.rs:2118-2142 | The loop computes the recursive search |
| `PoolQuotes.QuoteShape` | src/arbitrage/pool_quote.rs:1085-1227 | Every quote is executable-marginal, for the asked positive amount, from a fresh vault state with its fingerprint |
| `QuoteLaws.ConstantProductLaw` | src/arbitrage/pool_quote.rs:1085-1227 | A constant-product pool quotes exactly if direction, vault, age, reserves, fee and a positive net input allow; a buy pays base·x/(quote+x) and a sale quote·x/(base+x), rounded down, with x the input after the fee |
| `QuoteLaws.BinPoolLaw` | src/arbitrage/pool_quote.rs:1099-1163 | A bin pool quotes exactly if parameters, active bin, walk and prices allow, and pays what the walk pays, from X to Y exactly when SOL goes in as X or comes out as Y |
| `QuoteLaws.TickPoolLaw` | src/arbitrage/pool_quote.rs:1165-1197 | A tick pool quotes exactly what its walk pays between the mints as given, if the implied price is acceptable |
| `QuoteLaws.OtherPoolsLaw` | src/arbitrage/pool_quote.rs:1199-1201 | Pools on any other DEX are never quoted |
| `QuoteLaws.TenPowers` | src/arbitrage/pool_quote.rs:1005-1013 | The decimal scale is the powers of ten |
| `QuoteLaws.InputsLaw` | src/arbitrage/pool_quote.rs:422-445 | What each kind of pool needs to be complete |
| `QuoteLaws.ConstantProductCapLaw` | src/arbitrage/pool_quote.rs:2146-2200 | A constant-product sale is left alone, except that a pump pool without a positive fee takes nothing |
| `QuoteLaws.BinCapLaw` | src/arbitrage/pool_quote.rs:2098-2165 | A lowered bin sale is one the bins pay for and, if acceptance is downward closed, the largest; one left alone is paid for |
| `QuoteLaws.OtherCapLaw` | src/arbitrage/pool_quote.rs:2146-2200 | No other pool caps a sale |
| `PoolQuotes.EarlierRecheckAccepts` | src/arbitrage/pool_quote.rs:320-360 | The freshness re-check at an earlier clock read accepts every quote |
| `PoolQuotes.QuotableIsComplete` | src/arbitrage/pool_quote.rs:422-445 | The input-completeness filter drops only pools that cannot be quoted |
| `PoolQuotes.SellBelowBuy` | src/arbitrage/pool_quote.rs:1741-1791 | On one constant-product pool the screening sell price is strictly below the buy price |
| `PoolQuotes.DlmmCapAccepted` | src/arbitrage/pool_quote.rs:2098-2143 | The bin cap is zero or an accepted amount in range, and the largest one if acceptance is downward closed |
| `PoolQuotes.CpmmCapIsIdentity` | src/arbitrage/pool_quote.rs:2146-2200 | The constant-product cap returns its input, or 0 for a plausible pump pool with a zero or unresolved fee |
| `PoolQuotes.CapSellTokenInLoop` | src/arbitrage/pool_quote.rs:2146-2200 | The loops compute the cap |
| `RoundTrip.BestIsUnique` | src/arbitrage/pool_quote.rs:2599-2706 | There is one answer: the first usable pair, in scan order, of maximal profit |
| `RoundTrip.BuyOkComplete` | src/arbitrage/pool_quote.rs:2514-2549 | Every buy quote is on a complete candidate, fresh at the selector's clock and executable-marginal |
| `RoundTrip.SellOkComplete` | src/arbitrage/pool_quote.rs:2625-2681 | The same for every sell quote, so neither staleness nor quote kind rejects one |
| `RoundTrip.LabelChecksAreRedundant` | src/arbitrage/pool_quote.rs:2605-2617 | With the label equal to the pool's DEX the missing-bins and missing-ticks checks drop no quotable sell |
| `RoundTrip.CapChangesNothing` | src/arbitrage/pool_quote.rs:2231-2251 | On constant-product pools the sell leg is quoted for the full bought amount |
| `RoundTrip.PairingCandidates` | src/arbitrage/pool_quote.rs:2444-2454 | Keeps exactly the complete candidates, in order |
| `RoundTrip.ValidBuys` | src/arbitrage/pool_quote.rs:2514-2549 | Keeps exactly the candidates of the whole input with a usable buy quote |
| `RoundTrip.ScanSells` | src/arbitrage/pool_quote.rs:2599-2706 | One row of the scan keeps the best pair so far and never sees an incompatible kind |
| `RoundTrip.SelectRoundTripPools` | src/arbitrage/pool_quote.rs:2426-2735 | Succeeds exactly if brute force over all candidates finds a usable cross-DEX pair; its sale pays at least as much as that of every usable pair and more than that of every earlier one; otherwise fails only for want of pools, with the exact reason |
| `RoundTripLaws.UsableMeans` | src/arbitrage/pool_quote.rs:2599-2689 | A pair is usable exactly if the labels differ, the label checks hold, the buy quote pays tokens and the sale of them, as capped, pays SOL |
| `RoundTripLaws.BestMeans` | src/arbitrage/pool_quote.rs:2690-2705 | The answer is the first usable pair whose sale pays most, and there is none exactly if no pair is usable |
| `RoundTripLaws.FailureLaw` | src/arbitrage/pool_quote.rs:2455-2587 | The reported reason, as the first of four questions answered with no |
| `TrackPools.RejectedIffUnsupported` | src/arbitrage/track_selection.rs:545-661 | A pool whose quoting half names the same DEX is rejected exactly if unknown or on an unsupported DEX |
| `TrackLaws.TierLaw` | src/arbitrage/track_selection.rs:133-139 | For every pool and each tier, exactly when it is in it: supported and named by the signal, supported and quotable one way at this instant, supported and not, or unsupported |
| `TrackLaws.ProbeMeans` | src/arbitrage/track_selection.rs:565-578 | The amount probed for a sale is what the probe would buy by the cached reserves, at least one |
| `TrackBundles.ScanPairs` | src/arbitrage/track_selection.rs:401-428 | The nested loops compute the pair scan |
| `BundleShape.ScanIsBest` | src/arbitrage/track_selection.rs:401-428 | The scan finds a pair exactly if two DEXes occur, and no cross-DEX pair is readier, or as ready and more recent |
| `TrackBundles.SelectionIsBest` | src/arbitrage/track_selection.rs:336-356 | Whichever way it is computed, the round-trip bundle is the one of the brute-force pair |
| `TrackBundles.BuildMintBundle` | src/arbitrage/track_selection.rs:249-285 | Signal pair, else best round trip, else best pinable pair, each with a third pool if allowed |
| `BundleShape.BundleIffTwoDexes` | src/arbitrage/track_selection.rs:249-285 | For any readiness map a mint gets a bundle exactly if its eligible pools span two DEXes |
| `BundleShape.BundleIffSupported` | src/arbitrage/track_selection.rs:249-285 | With the quoting halves on the same DEX: exactly if it has known pools on two distinct supported DEXes |
| `BundleShape.ThirdIsNew` | src/arbitrage/track_selection.rs:456-501 | A third pool is another pool of the mint, and there is at most one |
| `BundleShape.EveryBundleOk` | src/arbitrage/track_selection.rs:287-501 | Every bundle pins two or three distinct known pools of its mint, on at least two DEXes |
| `BundleLaws.PairBundleLaw` | src/arbitrage/track_selection.rs:456-523 | The bundle around a pair pins both at the better of their tier and the floor, and, exactly if the limit allows three and a supported pool is on a third DEX, the best such pool by tier, DEX and address, at its own tier; all sorted by address |
| `BundleLaws.TopPairLaw` | src/arbitrage/track_selection.rs:387-428 | The pair scan picks the pair whose lower tier is best, then the most recent, then the first in pool order |
| `BundleLaws.BundleLaw` | src/arbitrage/track_selection.rs:249-454 | The bundle is the signal's pair if it names two supported pools on different DEXes, else the best round trip's, else the top pair, each with its priority, readiness floor and reason |
| `BundleLaws.OfferLaw` | src/arbitrage/track_selection.rs:124-150 | In a selection over well-formed mints every bundle is such |
| `TrackBudget.TakeLoop` | src/arbitrage/track_selection.rs:154-171 | The budget loop computes the greedy selection |
| `TrackBudget.WithinBudget` | src/arbitrage/track_selection.rs:163-170 | Selected pools never exceed the budget |
| `TrackBudget.FittingBundleIsSelected` | src/arbitrage/track_selection.rs:169-170 | A fitting bundle stands whole, as one block, in the selection |
| `TrackBudget.DisplacedBundleNeverFits` | src/arbitrage/track_selection.rs:163-168 | A displaced bundle is displaced whole and would not fit the budget left at the end |
| `TrackBudget.OvertakingBundleIsSmaller` | src/arbitrage/track_selection.rs:158-171 | A bundle selected after a displaced one is strictly smaller |
| `TrackBudget.SelectedAndDisplacedDisjoint` | src/arbitrage/track_selection.rs:158-174 | If no two bundles share a pool, none is both selected and displaced |
| `TrackStats.CompleteIffTwoDexes` | src/arbitrage/track_selection.rs:211-218 | The group test holds exactly if two selected pools of the mint are on different DEXes |
| `TrackStats.ComputePairCompletenessStats` | src/arbitrage/track_selection.rs:189-220 | Counts exactly the mints with a cross-DEX pair and exactly the selected pools of the others, in any visiting order |
| `TrackSelection.ClassifyAll` | src/arbitrage/track_selection.rs:121-143 | Builds the readiness map and the exact readiness histogram |
| `TrackSelection.SelectArbTrackPools` | src/arbitrage/track_selection.rs:116-186 | The whole selection, loops included, computes the specified result |
| `TrackLaws.RankedOrderLaw` | src/arbitrage/track_selection.rs:152 | The budget is offered to bundles by tier, Executable first, then recency, then name |
| `TrackLaws.LexMeans` | src/arbitrage/track_selection.rs:242-247 | Names compare by prefix or first difference |
| `PinSet.SelectionIgnoresOrder` | src/arbitrage/track_selection.rs:116-186 | For distinct mints and unique addresses, permuting the mints gives the identical selected list, displaced list and counters |
| `PinSet.RankingIgnoresOrder` | src/arbitrage/track_selection.rs:242-247 | For distinct mints the ranked bundles do not depend on the input order |
| `PinSet.OfferIffSupported` | src/arbitrage/track_selection.rs:124-150 | With globally unique addresses and the mint's quoting halves on the same DEX, a mint gets a bundle exactly if it has known pools on two supported DEXes |
| `PinSet.PinsWithinBudget` | src/arbitrage/track_selection.rs:163-170 | The pin set never exceeds `max_pools` |
| `PinSet.AllOrNothing` | src/arbitrage/track_selection.rs:158-174 | Each mint's bundle is pinned whole, or else displaced whole and too big even for the budget left at the end |
| `PinSet.OvertakerIsSmaller` | src/arbitrage/track_selection.rs:152-171 | A bundle pinned although it ranks strictly below a displaced one is strictly smaller |
| `TrackLaws.PinnedRanksAhead` | src/arbitrage/track_selection.rs:152-171 | A pinned bundle at least as large as a displaced one is of a better tier, or as good and more recent, or as recent and earlier by name |
| `PinSet.OnlyOffers` | src/arbitrage/track_selection.rs:145-174 | Nothing else is pinned or displaced |
| `PinSet.DisplacedList` | src/arbitrage/track_selection.rs:173-174 | The displaced list is ascending, without repetition, and has exactly the displaced pools |
| `PinSet.PinnedOnce` | src/arbitrage/track_selection.rs:158-171 | No pool is pinned twice |
| `PinSet.NoOrphans` | src/arbitrage/track_selection.rs:104-110 | `orphan_pools` is 0 and `pair_complete_mints` equals `selected_mints` |
| `InFlight.ExactIffOneHolder` | src/arbitrage/in_flight.rs:57-108 | Over every run: at every point a route is blocked exactly by a registration not yet ended by a later one, its terminal arb-strategy result or the first sweep at or after ttl plus 5000 ms, if and only if no terminal result ever finds two routes held by its intent |
| `InFlight.BlockedExactly` | src/arbitrage/in_flight.rs:57-108 | Where no terminal result finds two routes held by its intent, a route is blocked by an intent exactly if a registration of it still holds |
| `InFlight.UniqueIdsHoldOnce` | src/arbitrage/in_flight.rs:61-83 | Unique intent ids meet that condition |
| `InFlight.UnrelatedResultsKeepBlock` | src/arbitrage/in_flight.rs:93-108 | In one step of any registry, other sources, non-terminal results and results for other intents never unblock a route |
| `InFlight.SharedIdLeavesRouteBlocked` | src/arbitrage/in_flight.rs:72-83 | A run showing that the exact statement fails when two routes share an id |
| `InFlight.InFlightArbRegistry.BlockingIntentId` | src/arbitrage/in_flight.rs:57-59 | Over the registry's whole history, under the condition above: an answer names exactly the registration that still holds, and no answer means that none does |
| `InFlight.InFlightArbRegistry.Register` | src/arbitrage/in_flight.rs:61-70 | The route's entry becomes the new intent, all others stay, and the history records it |
| `InFlight.InFlightArbRegistry.ClearByIntentId` | src/arbitrage/in_flight.rs:72-83 | Removes one entry of the intent, if there is one, and says so |
| `InFlight.InFlightArbRegistry.ExpireStale` | src/arbitrage/in_flight.rs:85-91 | Drops exactly the entries past their ttl and grace, each read at its own instant, and the history records it |
| `InFlight.InFlightArbRegistry.HandleExecutionResult` | src/arbitrage/in_flight.rs:93-100 | Clears only on a terminal result of the arb strategy, and the history records it |
| `JsonlTail.SplitConcat` | scripts/trades_server.py:235-238 | Splitting a concatenation: only the piece carried over the chunk border needs to be joined |
| `JsonlTail.ReadChunk` | scripts/trades_server.py:232-244 | One backward chunk keeps the reader's invariant for any chunk border |
| `JsonlTail.ReadTail` | scripts/trades_server.py:212-251 | For every content, positive chunk size and line limit: the last non-blank elements of the content split on newline, in file order |
| `JsonlTail.IterJsonlTail` | scripts/trades_server.py:212-251 | The same with the 64 KiB chunk of the code, nothing for a missing file or a limit of zero or less |
| `JsonlTail.TailLines` | scripts/trades_server.py:213-216 | At most the limit of lines, all non-blank elements of the split |
| `JsonlTail.TailLaw` | scripts/trades_server.py:212-251 | By position in the split content: parts with some byte that is not ASCII white space, in file order, none skipped from the first on, none before it unless the limit is used up |
| `JsonlTail.PartsHaveNoNewline` | scripts/trades_server.py:237 | No part of the split contains a newline |
| `JsonlTail.JoinSplit` | scripts/trades_server.py:237 | Joining the split with newlines gives the content back |
| `Ledger.TradeHistory.ComputeRunningPnl` | scripts/trades_server.py:608-650 | The rows, in chronological order, get the displayed PnL of the average-cost book before them |
| `Ledger.EveryPositionSound` | scripts/trades_server.py:624-646 | With positive amounts no holding or cost is negative and an empty holding has no cost |
| `Ledger.PartialSellKeepsAverage` | scripts/trades_server.py:636-643 | Selling part of a holding leaves its average cost unchanged |
| `Ledger.Conservation` | scripts/trades_server.py:624-646 | Bought cost plus what oversells charge too much equals remaining cost plus charged cost |
| `Ledger.ConservedIffNoOversell` | scripts/trades_server.py:636-643 | Bought cost equals remaining plus charged cost exactly if no sell exceeds the holding at its time |
| `Ledger.OversellCreatesCost` | scripts/trades_server.py:636-643 | Buying one token and selling two charges twice the cost: the surplus is one cost |
| `Ledger.ComputePnl24h` | scripts/trades_server.py:661-744 | The summary folds the displayed PnL of the realised sells and the arbitrage rows in the window |
| `Ledger.SummaryAgreesWithDisplay` | scripts/trades_server.py:680-744 | Wins plus losses equal the trade count, and with a cutoff before all trades the total is the displayed sells' plus the arbitrages' |
| `Ledger.RealisedIsDisplayed` | scripts/trades_server.py:635-645 | A realised sell's displayed PnL is that of the book just before it |
| `LedgerLaws.TimeOrder` | scripts/trades_server.py:610 | The rows are the trades in time order |
| `LedgerLaws.PositionLaw` | scripts/trades_server.py:613-646 | How each row moves a mint's position, from its own fields: a purchase by fill or wallet change, a sale at average cost, nothing else |
| `LedgerLaws.RealisedLaw` | scripts/trades_server.py:633-645 | A realised sale shows the fill if positive, else a positive wallet change, else nothing, minus the average cost of what was sold, and the percentage of that cost |
| `LedgerLaws.OtherRowsLaw` | scripts/trades_server.py:620-650 | What all other rows show |
| `LedgerLaws.ProfitAndCostAreIncome` | scripts/trades_server.py:633-645 | Per mint, displayed profit plus charged cost is exactly what the sales brought in |
| `LedgerLaws.SummaryLaw` | scripts/trades_server.py:680-744 | The summary totals the gains of the realised sales and arbitrage rows after the cutoff, and counts them by sign, a zero gain as a win |
| `Base58.RespellRoundTrip` | verify_pda.py:51-100 | Respelling digits in another base and back, leading zeros kept, is the identity |
| `Base58.DecodeEncode` | verify_pda.py:51-100 | Decoding the encoding of any byte string gives it back |
| `Base58.EncodeDecode` | verify_pda.py:51-100 | Encoding the decoding of any string over the alphabet gives it back |
| `Base58.EncodingLaw` | verify_pda.py:78-100 | The text has one leading 1 per leading zero byte and its letters, in the alphabet's order, are the digits of the same number, most significant first |
| `Base58.ValueIsPlaceSum` | verify_pda.py:64-97 | The accumulated number is the sum of the digits times the powers of their places |
| `Base58.Base58Encode` | verify_pda.py:78-100 | The loops compute the encoding |
| `Base58.Base58Decode` | verify_pda.py:51-76 | The loops compute the decoding, and fail exactly on letters outside the alphabet |
| `Base58.Accumulate` | verify_pda.py:64-67 | The decoding loop gives the value of the letters, or an error for any letter outside the alphabet |

## Left out

- `src/arbitrage/multi_hop_integration.rs`, `arb_slave_sync.rs`, `src/arb_quality.rs` and everything outside the files listed above: workers, metrics, I/O and bookkeeping.
- The DLMM bin walker, the Orca tick walker, the pump fee tables and the state fingerprints are arbitrary functions; the fee lookup is assumed to give nothing while the fee configuration is not loaded.
- Fees above 10000 bps, where the code's subtraction underflows, and the overflow of the sum of all bin amounts that starts the bin search.
- Floating-point and decimal rounding: `f64`, `Decimal` and Python floats are exact reals, including `round(…, 9)` of the PnL and the NaN and infinity branches of the return conversion.
- Wrap-around of `amount_out as i64` and of `probe_lamports as i64`: probes are below 2^63 and profits are unbounded integers; `10u64.pow(decimals)` does not overflow.
- The diagnosis details and counters beside a pair-selection failure: only the failure and its sub-reason are modelled.
- Locks and concurrent access: each graph, ranker or registry call is atomic, and the graph does not change during a search.
- `last_update_ts` of the graph statistics, `clear_cache` of the ranker, `has_profitable_cycle`, `pools_between` by value, and metric labels.
- Clock reads inside pin selection: all of one selection happens at one instant.
- `Ledger.Conservation`: for positive token amounts, as the trade records hold; a negative amount is not a trade.
- `arb_track_removal_reason`, `is_trustworthy_profit_estimate`, `PoolEdge::new` and other one-line accessors.
- UTF-8 decoding of tail lines and `OSError` during the read; loading and parsing of trade records; the clock of the 24 hour window, which is a parameter.
- `in_flight_key_from_intent_metadata`: map lookups that build a key.

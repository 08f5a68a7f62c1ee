# JEE Chain mana module: model and proofs

JEE Chain charges no transaction fees. An account pays for bandwidth with *mana*, a per-account
allowance that regenerates with block height, is capped by the account's share of the token supply,
and never falls below a free floor. This project models the module that keeps this ledger
(`x/mana`), the ante decorators that drive it (`app/ante/ante.go`) and the PreBlocker step, and
proves what they guarantee for all inputs, all stores and all runs.

`dafny verify dfyconfig.toml` checks the whole project.

## Shape of the model

| file | content |
|---|---|
| `Machine.dfy` | Go's fixed-width integers; every wrap and cast is an explicit function |
| `Types.dfy` | records, parameters, constants, errors; the bank, the bech32 codec and SHA-256 as inputs |
| `Rate.dfy` | the balance-proportional rate; monotonicity, merging, the network pool |
| `Regen.dfy` | regeneration on 64 bits against block-by-block regeneration over unbounded integers |
| `Pow.dfy` | big-endian encodings, the bit-counting loop, puzzle preimages, the difficulty walk |
| `Ledger.dfy` | the mana store as a value, and each keeper operation on it |
| `Ante.dfy` | the ante pipeline as a transaction, and its effect in closed form |
| `Chain.dfy` | runs of blocks and transactions with arbitrary bank values and heights |
| `Agreement.dfy` | isolation, commutation, independence of consensus from proof of work |
| `Limits.dfy` | the rate limit, the per-block transaction limit, refill times |
| `Network.dfy` | the bandwidth of all accounts together, for any parameters, while balances stand still |
| `Circulation.dfy` | the same while coins move: what always holds, and for exactly which parameters the bound survives |
| `Headroom.dfy` | mana above the cap: the genesis bonus, and queries above their own cap |
| `Eager.dfy` | the reference ledger that regenerates every account in every block, and the refinement |
| `Touches.dfy` | counter writes regenerate records without anybody noticing from the mana |
| `Query.dfy` | the balance query, which computes the cap a second time |
| `Genesis.dfy`, `Restart.dfy` | import, export, key order, round trips, restarted chains |
| `Keeper.dfy` | the keeper as an object updated in place, each method proved against the functions above |
| `AnteHandler.dfy` | the decorators, the branch-and-commit rule and the PreBlocker, step by step on the keeper |

The keeper and the decorators are imperative, as in the program: a class whose methods update its
fields, loops over signers, bytes, genesis records and store keys. Each method's contract equates
the new store (and the error) with a function of the old one; the theorems are about those functions.
Addresses are byte strings, and records hold bech32 strings that the code decodes again when it
regenerates, so that every record belongs to the key it is stored under is an invariant to prove
(`WellFormed`), not an assumption about the type.

A rejected rate or a panic of the libraries (a `math.Int` beyond 256 bits, an undecodable address)
is an error value: the SDK's transaction runner turns a panic into a rejected transaction.

## Where code and documentation differ

The model follows the code.

- The chain's own `README.md:105` says very large holders regenerate faster than the floor. Under the
  default parameters nobody does: `Regen.DefaultGainIsFloor`. `Regen.QuotaThreshold` gives the exact
  balance from which it is true, for any parameters.
- Its lines 107-109 promise two genesis accounts 500,000,000 mana as extra headroom. Blocks start at
  height 1 and every read regenerates, which cuts mana above the cap to the cap
  (`x/mana/keeper/keeper.go:213-216`). So the headroom exists, from the first block on, exactly for an
  owner of at least half of the supply (`Headroom.BonusKeptIffHalfTheSupply`); everybody else has exactly
  its own smaller cap (`Headroom.BonusLostBelowHalf`). Neither account is such an owner
  (`Headroom.ShippedBonusIsLost`): the founder has 125,000,000, and the validator, who stakes 10M of its
  12.5229M coins at genesis (`config/genesis-wallets.json:4`), has 10,214,170 from its liquid coins; even
  unstaked they would give 50,700,000 only. `Headroom.KeptIffWithinCap` is the condition for any record.
- The balance query can report more than its own cap, but only for a record written at the queried
  height (`Query.QueryAgreesWithRegeneration` has the exact condition). When an account pays and its coins
  leave in one block, the query still reports what the payment left (`Headroom.QueryAboveItsCap`), for
  instance 1,999,800 of 1,000,000 (`Headroom.QueryExceedsItsCap`).
- `x/mana/keeper/keeper.go:249` and `app/ante/ante.go:198-203` call the per-block limit hard. The
  stored counter has 32 bits and `Params.Validate` has no upper bound, so the limit holds exactly if
  MaxTxPerBlock is below 2^32; from there on nothing is refused: `Limits.LimitHoldsIffItFits`.
- `x/mana/keeper/keeper.go:360-363` says a nonce cannot be replayed across chains. The preimage has no
  separator between chain and signer, so between two chains this holds exactly if neither identifier
  is a prefix of the other: `Pow.ChainsSeparatedIffPrefixFree`. `Pow.PuzzleAmbiguousAcrossChains` gives
  a pair. On one chain, and across chains for signers of one length, the promise holds: `Pow.PuzzleBinding`
  for the puzzles, and `Pow.WorkBinding` for the work itself, up to collisions of SHA-256.
- `leadingZeroBits` counts in 32 bits and so is right exactly if the first 2^29 bytes are not all
  zero: `Pow.CounterExact`. The 32-byte hashes it is used on never reach that.

## Model

| member | source | states |
|---|---|---|
| Machine.WrappedDifference | x/mana/keeper/keeper.go:158-165 | for every pair of heights current > last, the wrapping int64 subtraction cast to uint64 is the true difference, also where the subtraction itself goes negative |
| Rate.RateExact | x/mana/keeper/rate.go:11-25 | for every input, supply 0 included: the ideal floor share times max(1, multiplier) if it and its intermediates fit, and otherwise which of the two errors |
| Rate.RateShape | x/mana/keeper/rate.go:16-24 | a larger balance or a smaller supply never lowers the rate, and the smaller rate is computable whenever the larger is |
| Rate.RateMerge | x/mana/keeper/rate.go:16-19 | splitting a wallet never raises the total rate and lowers it by at most one multiplier |
| Rate.RateNeverFails | x/mana/keeper/rate.go:16-24 | if the pool times the multiplier fits 64 bits, no holder of at most the supply gets an error or more than the pool |
| Rate.NetworkPool | x/mana/keeper/rate.go:11-25 | holders of at most the supply share at most the pool; holders of exactly the supply share all of it up to one unit per further holder |
| Regen.NetworkCaps | x/mana/keeper/keeper.go:183-186 | the caps of any holders of at most the supply sum to at most the pool plus one floor each |
| Regen.AddManaSaturating | x/mana/keeper/keeper.go:208-230 | equals min(current + perBlock * blocks, cap) over unbounded integers, for all 64-bit arguments |
| Regen.RegenerateExact | x/mana/keeper/keeper.go:152-206 | one lazy regeneration equals adding one capped block at a time, for every pair of heights |
| Regen.RegenerateTwice | x/mana/keeper/keeper.go:152-206 | regenerating at an intermediate height and again later is regenerating once |
| Regen.LazyBrackets | x/mana/keeper/keeper.go:167-206 | with changing balances, the lazy result lies above or below true block-by-block regeneration when the closing block's quota dominates, or is dominated by, every block since the last touch |
| Regen.QuotaThreshold | x/mana/keeper/keeper.go:170-201 | the balance threshold, both directions, for any gain above the free 1000 per block and any cap above the free floor, with the parameters BlocksPerYear and ManaRegenMultiplier themselves (31,557,600 and 1 where they are 0) |
| Regen.QuotaExact | x/mana/keeper/keeper.go:167-201 | for every account, parameters and bank values: gain and cap in plain numbers, or which of the two errors |
| Regen.NetworkGains | x/mana/keeper/keeper.go:188-201 | however the supply is distributed, n holders together gain at most floor(pool / BlocksPerYear) + 1000 n per block |
| Regen.DefaultGainIsFloor | x/mana/keeper/keeper.go:197-201 | with the default parameters every account gains exactly 1000 per block |
| Ledger.GetAccountManaExact | x/mana/keeper/keeper.go:106-142 | a read depends on the account's own balance, equals block-by-block regeneration since the last update, and fails exactly if the rate does |
| Ledger.FreshAccountAccrues | x/mana/keeper/keeper.go:118-135 | a wallet without a record has been regenerating since height 0 |
| Ledger.FailingRateRefuses | x/mana/keeper/keeper.go:232-257 | a rate that cannot be computed refuses payment and counting with its own error and changes nothing |
| Ledger.OperationsKeepWellFormed | x/mana/keeper/keeper.go:232-272 | paying and counting write at most one record, and it stays with its owner |
| Ante.CountAllExact | app/ante/ante.go:212-242 | the signer loop accepts exactly if every signer has room for all its occurrences, and then counts each; repeated signers included |
| Ante.CountAllRefusal | app/ante/ante.go:234-239 | a refused signer loop gives the error of the first signer that cannot be read or whose occurrences so far do not fit |
| Ante.DeliverExact | app/ante/ante.go:44-88 | a delivered transaction is accepted exactly if admissible; the payer's regenerated mana then drops by exactly the cost, each signer is counted once per occurrence, nothing else changes; a rejected one changes nothing, whichever stage refused |
| Ante.DeliverVerdict | app/ante/ante.go:44-88 | which error every delivered transaction gets, said about the store before the pipeline runs: size above 1,048,576 first, then the early checks, signers, the payer's rate, its mana, the first refused signer, the late checks |
| Ante.RefusedChangesNothing | app/ante/ante.go:44-46 | in every mode, mempool admission under congestion included, a refused transaction neither takes mana nor counts |
| Ante.CheckIsDeliverPlusPow | app/ante/ante.go:262-308 | mempool admission has the filter's verdict if the size limit and the early checks pass and the filter refuses, and otherwise the verdict of block execution, errors included; accepted, it leaves the same store; at difficulty 0 the two coincide |
| Ante.PowChokeExact | app/ante/ante.go:268-307 | the filter's verdict, each error included: past height 0 and above difficulty 0 it passes exactly if a first signer exists and SHA-256(SHA-256(chain, signer, eight sequence bytes), memo) is below 2^(256 - difficulty) |
| Ante.RunTxKeepsWellFormed | app/ante/ante.go:47-88 | in every mode, every transaction keeps every record with its owner |
| Chain.RunKeepsWellFormed | x/mana/keeper/keeper.go:282-288 | over every run every stored record decodes to its key, and the parameters never change |
| Chain.WrittenWithinCap | x/mana/keeper/keeper.go:203-206 | over every run, a record moved in time was last regenerated by an accepted transaction that its own account signed, which found an older record, at that step's height and within the cap that step computed |
| Chain.NeverAhead | x/mana/keeper/keeper.go:158-160 | over every run no record gets ahead of the chain |
| Agreement.DeliverAgrees | app/ante/ante.go:143-242 | verdict (error included) and effect of a delivered transaction depend on its signers' records only, and not on its proof of work |
| Agreement.DisjointTxsCommute | app/ante/ante.go:143-242 | transactions without a common signer commute in verdicts and in the final store |
| Agreement.OwnFundsSuffice | x/mana/keeper/keeper.go:167-174 | of the bank, a transaction sees its signers' balances and the supply only |
| Agreement.Isolation | app/ante/ante.go:143-242 | over every run, from any store, a group's records and verdicts are those of the run without anybody else's transactions, under identical bank values in both runs |
| Agreement.IsolationFromOthersFunds | app/ante/ante.go:143-242 | the same where the two runs only share the group's own balances and the supply: how others' balances move has no effect |
| Agreement.SingleSignerIsolation | README.md:58-60 | with one signer per transaction and identical bank values, a flood by other accounts changes nothing for an account |
| Agreement.FloodIsHarmless | README.md:58-60 | with one signer per transaction, a flood by other accounts, their balances moving freely, changes nothing for an account whose own balance and the supply are the same |
| Agreement.PowNeverAffectsConsensus | app/ante/ante.go:268-273 | from stores that differ in difficulty, runs that differ in attached work and block statistics give equal verdicts and equal accounts at every step |
| Limits.RateLimit | x/mana/keeper/keeper.go:122-125 | over every run with arbitrary balances and heights, mana spent plus mana left is at most the initial mana plus gain times blocks advanced; gain has to bound the quota only where the account signs |
| Limits.SpentIsBaseAndBytes | x/mana/keeper/keeper.go:274-280 | the mana spent over a run is exactly 100 per accepted transaction plus its bytes |
| Limits.Throughput | x/mana/keeper/keeper.go:232-280 | so k accepted transactions satisfy 100 k + bytes at most that bound |
| Limits.DefaultThroughput | x/mana/types/types.go:15-37 | with the default parameters the bound is 1000 per block for every account that owns at most the supply whenever it signs |
| Network.NetworkThroughput | x/mana/keeper/keeper.go:188-247 | for any parameters, over every run in which the holders' quotas stand still where they sign, all holders together send (100 per transaction, and the bytes) and keep at most what they had plus the network's gain per block |
| Circulation.MovingThroughput | x/mana/keeper/keeper.go:167-247 | for any parameters, over every run in which balances move freely up to the supply, n holders together send and keep at most what they had plus n times max(1000, top gain) per block |
| Circulation.DefaultNetworkThroughput | x/mana/types/types.go:15-37 | with the default parameters and coins moving freely, n holders together send and keep at most what they had plus 1000 n per block |
| Circulation.BoundSurvivesCirculationIff | x/mana/keeper/keeper.go:167-201 | for valid parameters, the network's bound of Network.NetworkThroughput holds over every run in which coins move within the supply if and only if the top gain is at most 1000; the top gain is floor(pool * multiplier / BlocksPerYear) where the product fits 64 bits, and in general that of the largest multiple of the multiplier that does |
| Circulation.TourBreaksTheBound | x/mana/keeper/keeper.go:167-168 | above that, a run that breaks the bound: within block 1 one stake visits one wallet more than the pool's gain, and each earns the whole top gain |
| Limits.DrainedStaysDrained | x/mana/keeper/keeper.go:122-125 | draining to exactly 0 never refills: later reads have only what the blocks since then give |
| Limits.CounterIsLog | x/mana/keeper/keeper.go:250-272 | over every run the stored counter is the log of accepted counts at every height still open, no log exceeds the limit, and the counter never wraps |
| Limits.PerBlockLimit | x/mana/keeper/keeper.go:259-268 | an attempt is refused exactly if the log of its height is full |
| Limits.SuccessesExact | x/mana/keeper/keeper.go:259-268 | how many of n attempts in a row at one height succeed, for every limit |
| Limits.LimitHoldsIffItFits | x/mana/keeper/keeper.go:264-268 | the limit bounds an account's transactions per block if and only if it is below 2^32 |
| Limits.DefaultAllowance | x/mana/types/types.go:15-33 | without stored parameters, or with the shipped ones: exactly 20 transactions per account and height, and 1000 mana per block up to 1,000,000 for an account without coins |
| Limits.RefillTime | x/mana/keeper/keeper.go:197-229 | an idle account first affords a cost above its mana after exactly ceil((cost - mana) / gain) blocks if the cap covers it, and never otherwise |
| Limits.FloorAccountSizeLimit | x/mana/types/types.go:24-37 | a floor account can never pay for more than 999,900 bytes although sizes up to exactly 1,048,576 pass the size limit, and can pay for any smaller size after 1000 blocks |
| Headroom.KeptIffWithinCap | x/mana/keeper/keeper.go:158-160 | a read shows at least the stored mana exactly if nothing regenerates yet or the stored mana is within the cap; an excess is cut to the cap |
| Headroom.ExcessCannotBeSpent | x/mana/keeper/keeper.go:213-216 | in any later block an account with stored mana at or above its cap affords exactly its cap |
| Headroom.BonusKeptIffHalfTheSupply | config/genesis.json:214-229 | a genesis account with 500,000,000 mana has it from block 1 on if and only if it owns at least half of the supply |
| Headroom.BonusLostBelowHalf | x/mana/keeper/keeper.go:213-216 | an owner of less than half of the supply reads, and can spend, exactly its cap, which is less than the bonus, at every height from 1 on |
| Headroom.ShippedBonusIsLost | config/genesis-wallets.json:4-37 | with the listed balances the founder reads, and can spend, exactly 125,000,000, and the validator 10,214,170 from its liquid coins, or 50,700,000 if the 10M staked at genesis counted as well |
| Headroom.QueryAboveItsCap | x/mana/keeper/query.go:12-36 | after a payment and a transfer in one block, the query reports the mana the payment left against the cap of the new balance |
| Headroom.QueryExceedsItsCap | x/mana/keeper/query.go:12-36 | a fresh owner of the whole supply pays 200 at height 2000 and its coins leave: the query reports 1,999,800 against a cap of 1,000,000 |
| Eager.LazyRefinesEager | x/mana/keeper/keeper.go:100-272 | over every run with fixed quotas the keeper gives the verdicts and the mana of a ledger that regenerates every account in every block, and the balance query answers with that mana and the account's cap |
| Eager.TransactCorresponds | app/ante/ante.go:143-242 | one transaction on the lazy and on the eager ledger: same verdict, error included, and corresponding results |
| Eager.StartCorresponds | x/mana/keeper/keeper.go:126-135 | every store not ahead of the chain has such a ledger; absent accounts tick from height 0 |
| Eager.QuotasExist | x/mana/keeper/rate.go:16-24 | quotas for all accounts exist whenever the pool fits 64 bits and balances are at most the supply |
| Touches.TouchesAreInvisible | x/mana/keeper/keeper.go:100-105 | over every run of payments and counter writes with fixed quotas, removing all counter writes changes no payment's verdict and no later mana reading of any account |
| Query.QueryAgreesWithRegeneration | x/mana/keeper/query.go:12-36 | the query's mana is the record ticked block by block to the queried height, its own cap computation gives the cap regeneration uses, or the same error, and the mana is within the cap exactly if the record was regenerated or within it before |
| Pow.LeadingZeroBits | x/mana/keeper/keeper.go:400-412 | the loop returns the number of leading zero bits, modulo 2^32 |
| Pow.LeadingZerosValue | x/mana/keeper/keeper.go:400-412 | at least d leading zero bits exactly if the big-endian value is below 2^(8 len - d), for all byte strings |
| Pow.CounterExact | x/mana/keeper/keeper.go:401-411 | the 32-bit count is right exactly if the first 2^29 bytes are not all zero |
| Ledger.VerifyPowExact | x/mana/keeper/keeper.go:364-398 | work is accepted exactly if SHA-256(SHA-256(chain, signer, eight sequence bytes), memo), as a 256-bit number, is below 2^(256 - difficulty) |
| Ledger.EasierIsEasier | x/mana/keeper/keeper.go:364-376 | work accepted at one difficulty is accepted at every lower one |
| Pow.ChallengePreimageEqual | x/mana/keeper/keeper.go:380-389 | exactly which (chain, signer, sequence) triples share a puzzle |
| Pow.PuzzleBinding | x/mana/keeper/keeper.go:360-389 | puzzles bind signer and sequence on one chain, and the chain for signers of one length |
| Pow.ChainsSeparatedIffPrefixFree | x/mana/keeper/keeper.go:360-389 | for two different chain identifiers, no valid signers ever share a puzzle if and only if neither identifier is a prefix of the other |
| Pow.PuzzleAmbiguousAcrossChains | x/mana/keeper/keeper.go:360-389 | a family of puzzles shared by chains "JE" and "JEE", for valid signers |
| Pow.WorkPreimageInjective | x/mana/keeper/keeper.go:392-398 | a work preimage determines its challenge and memo |
| Pow.WorkBinding | x/mana/keeper/keeper.go:360-398 | equal work for two different combinations of chain, signer, sequence and memo (one chain, or signers of one length) gives a collision of SHA-256: no nonce is replayed across accounts or transactions |
| Ledger.DifficultyStep | x/mana/keeper/keeper.go:324-358 | reading the stored bytes after an update gives the walk's next difficulty; they are written only if it changes, and nothing else is |
| Ledger.StoredDifficulty | x/mana/keeper/keeper.go:324-338 | every 32-bit difficulty reads back from its four stored bytes, and fewer bytes read as 0 |
| Chain.StoredDifficultyIsWalk | app/app.go:544-552 | over every run, with any transactions between the blocks, the stored difficulty is the walk over the blocks' transaction counts |
| Pow.WalkInRange | x/mana/keeper/keeper.go:340-358 | the difficulty stays in [0, 24] and moves by at most 1 per block |
| Pow.WalkClosed | x/mana/keeper/keeper.go:345-358 | every difficulty in closed form: the start plus congested minus calm blocks, no lower than the walk from 0 and no higher than the walk from 24 |
| Pow.WalkSteady | x/mana/keeper/keeper.go:353-354 | blocks of 200 to 1000 transactions leave every difficulty where it was |
| Pow.DifficultyIsEarned | x/mana/keeper/keeper.go:340-358 | difficulty k > 0 implies a stretch of blocks up to now with at least k more congested than calm blocks |
| Pow.ReliefIsEarned | x/mana/keeper/keeper.go:340-358 | the dual: a fall by k from 24 implies a stretch of blocks up to now with at least k more calm than congested blocks |
| Pow.WalksConverge | x/mana/keeper/keeper.go:340-358 | two walks over the same blocks keep their order and never widen their gap |
| Pow.WalksCoincide | x/mana/types/types.go:48-58 | after 24 blocks of more than 1000 transactions in a row, or 24 of fewer than 200, the starting difficulty is forgotten for good |
| Genesis.ImportLastWins | x/mana/keeper/genesis.go:20-26 | every key ends with the last record that decodes to it, other keys are kept |
| Genesis.ImportVerdict | x/mana/types/types.go:107-150 | whether any file is accepted, which error it gets otherwise, and that a refused file changes nothing |
| Genesis.ExportUnique | x/mana/keeper/genesis.go:30-48 | the exported file is determined by the store: one record per key in byte order |
| Genesis.BeforeIsLexicographic | x/mana/keeper/genesis.go:34-35 | the order of the export is the ascending one: after a common prefix the first address ends or has the smaller byte, in both directions |
| Genesis.ExportAscends | x/mana/keeper/genesis.go:34-45 | the addresses that the exported records hold ascend in that order |
| Genesis.ExportImportRoundTrip | x/mana/keeper/genesis.go:13-48 | exporting a reachable store and importing into an empty one restores parameters and all accounts; difficulty restarts at 0 |
| Genesis.ImportIsReachable | x/mana/keeper/genesis.go:20-26 | every record of an imported valid file decodes to the key it is stored under |
| Genesis.ImportExportCanonical | x/mana/keeper/genesis.go:13-48 | importing a valid file and exporting gives its canonical form: key order, last duplicate |
| Restart.RestartIsIndistinguishable | x/mana/keeper/genesis.go:13-48 | a chain restarted from its export gives the same verdicts and accounts over every later run |
| Restart.ExportAnywhereAndRestart | x/mana/keeper/genesis.go:13-48 | from any valid genesis and after any run, the export is accepted and the restarted chain gives the same verdicts and accounts over every later run |
| ManaKeeper.Keeper.SetParams | x/mana/keeper/keeper.go:80-92 | stores exactly the valid parameters |
| ManaKeeper.Keeper.ConsumeMana | x/mana/keeper/keeper.go:232-247 | the in-place method has the effect of the ledger function, error and new store |
| ManaKeeper.Keeper.IncrementTxCount | x/mana/keeper/keeper.go:249-272 | the in-place method has the effect of the ledger function, error and new store |
| ManaKeeper.Keeper.UpdatePowDifficulty | x/mana/keeper/keeper.go:345-358 | the in-place method takes one step of the walk |
| ManaKeeper.Keeper.VerifyPow | x/mana/keeper/keeper.go:364-398 | accepts exactly the hash values below 2^(256 - difficulty), said with SHA-256 alone, using the counting loop |
| ManaKeeper.Keeper.InitGenesis | x/mana/keeper/genesis.go:13-27 | the record-by-record loop has the effect of the import function |
| ManaKeeper.Keeper.ExportGenesis | x/mana/keeper/genesis.go:30-48 | the iterator walk returns the store's export |
| AnteHandler.TxSpamLimit | app/ante/ante.go:212-242 | the loop over signers, also when it stops midway |
| AnteHandler.RunTx | app/ante/ante.go:44-88 | the decorators in order on the keeper, with the branch kept or dropped as a whole |
| AnteHandler.PreBlocker | app/app.go:544-552 | drives the difficulty from the block's transaction count only |

## Left out

- SDK wiring, HTTP and JSON routes, codecs, module registration, configuration and command line: no property of their own.
- Signature verification, gas, sequence numbers and the other SDK decorators: one arbitrary verdict before the proof-of-work stage (SetUpContext, which runs before the size limit, is folded into it) and one after the spam stage. That a failed ante run is not written back is BaseApp's rule, taken as given in `RunTx`.
- SHA-256 and bech32 are parameters: a 32-byte function, and a codec that decodes what it encodes. Signers are addresses of 1 to 255 bytes, as the SDK validates them. JSON decoding of stored records is assumed to invert encoding.
- The library of `math.Int` is not part of this model beyond its 256-bit limit.
- The check state of mempool admission: a CheckTx is a verdict on any store; it is no step of a run, because its writes never reach the committed store.
- Zero-height export (`app/export.go`) does not rewrite mana heights; no continued regeneration after it is claimed, and the runs that need heights to go forward say so.
- Mempool priority (`app/app.go:506-526`, the payer's mana as a saturated int64) and the mempool's own ordering: a single cast, and library code. RejectFeeDecorator is not wired, and BlockTxCountKey has no caller.
- Agreement.Isolation: both runs get the same bank values at every step; Agreement.IsolationFromOthersFunds frees everybody else's balances. What others send to the group itself changes the group's own balance and is outside both.
- Agreement.SingleSignerIsolation: the same bank values in both runs; Agreement.FloodIsHarmless frees everybody else's balances.
- Network.NetworkThroughput: the holders' quotas are fixed where they sign, because above a top gain of 1000 the bound is false with moving coins; Circulation.BoundSurvivesCirculationIff gives the exact condition, and Circulation.MovingThroughput what holds in every case.
- Eager.LazyRefinesEager: bank values and parameters are fixed for the run; with changing ones the two ledgers may differ, and Regen.LazyBrackets says in which direction.
- Changes of parameters during a run: SetParams is called only at genesis in this repository.

# LasseCash: a verified model of its token economy

This project models the integer arithmetic and the state machines of LasseCash, a token
economy whose Go `engine/` runs unchanged in a contract, a development chain and the
browser, and proves what its documentation and tests promise. `dafny verify dfyconfig.toml`
checks everything.

## How it is laid out

| module | models |
|---|---|
| Units | int64 amounts, checked addition, the 128-bit MulDiv |
| Emission | era budgets, cumulative emission, the split |
| Accumulator | one reward-per-share step, and an entitlement between two readings |
| LShare, RateYears, RateLimit | share rate, year by year as far as its promise reaches, shares of a mint, settlement over a mint's life |
| MintTerms | the terms of a mint in closed form: shares granted, how long it stays whole |
| Pool | the constant-product pool and its liquidity shares |
| Merkle | leaf texts, sorted-pair hashing, the tree builder, proofs |
| Indexer | the two-phase paged walk over a growing transaction log |
| Insertion, Governance | insertion in place; top-ten selection; the median of preferences |
| Board | the stored leaderboard of twenty the group is taken from |
| ProofOfBrain | proportional claims on a pool, votes, payouts |
| ShareBook | live shares, voting balances and chunked expiry lists, as one law over the open mints |
| Accrual | the resumable walk as a function, the plain day-by-day fold, slicing independence, solvency |
| Daily | one day, one inflow and the days themselves, without the walk's own terms |
| Ledger | whole transactions: snapshot, claim, burn record, sweep, advance, mint, arm, close |
| Guarantees | what users are promised over every run of transactions |
| Interleaving | where an advance may be called without changing what the transactions around it do |
| LateClaim | a run from genesis after which that does matter |
| Collection | whether a committed entry can always be collected, whatever is called first |
| Acceptance | when each transaction is accepted, exactly |
| Store | the walk and the expiry rows as code updating fields in place |
| Contract | the transactions as code updating fields in place |
| App | the entry points, which abort what is refused, and what each promises its caller |

The four ideas the rest hangs on:

- **The book of shares** (`ShareBook.Sound`). Each figure the contract stores in place of a
  scan is the sum over open mints it stands for: voting balances are the shares the walk has
  not retired, the denominator is the live shares, each day's aggregate and each chunk of its
  list name exactly the mints that stop that day. Draining a chunk, closing a day, adding,
  arming and closing a mint keep it, so no balance is ever floored at zero by the code's
  defensive clamps.
- **Slicing independence** (`Accrual.SlicingIndependence`). `Walked` is the budgeted call with
  its locals, its stored cursor and its once-per-call credits; `DaysTo` retires, distributes
  and credits one day at a time. Every sequence of calls lands on the fold. It rests on a day's
  emission being a multiple of eight, and `OncePerCallIsExact` shows that to be necessary.
- **Solvency** (`Accrual.Solvent`). The accumulator units all open mints have earned, plus the
  held value times the scale, never exceed the L-Share pool times the scale.
- **Conservation** (`Ledger.Sane`). Balances, open principal and pools add up to migrated plus
  emitted supply at every reachable state, and no figure comes near an int64's edge.

Store keys are typed fields and maps in which an absent key and a zero read alike, as the
contract's getters make them; `hpd` is the build's heights per day (28,800, 120 or 8), taken
as any multiple of 8 up to 28,800 that divides the era. Hash inputs are strings with one char
a byte; SHA-256 is an arbitrary function to 32-byte digests, and what is needed of it is
stated about the strings actually hashed. Mints are named by one global index instead of an
index per owner, and a close checks the owner. A run's heights never go back, as on a chain.
Heights, days and maturities are unbounded naturals; the Go code adds them as `uint64` and
would wrap at 2^64, which no height of a chain comes near.

`Ledger` and everything on it down to `Contract` is the state package: there a refused
transaction may leave the days its walk had closed. On the chain the entry point aborts
(`contract/app/main.go:95-101`) and those are unwound too. `App` models that, and
`App.ChainIsTheRunOfItsAcceptedCalls` carries every result about runs over to it.

## Where the code and its comments differ

- `engine/accumulator.go:134` and `contract/state/accrual.go:99-100` say the retire budgets
  must be multiples of the chunk size or the walk wedges. `BehindMovesExactly` shows that a
  budget of at least one chunk suffices.
- `contract/state/claim.go:48` says the hard cap is checked against the whole snapshot so that
  no later claim can breach it. The sums are unchecked: `AcceptedSnapshotMeetsTheCapExactly`
  gives the exact condition, `HugeSnapshotPasses` an input outside it.
- `contract/state/claim.go:17-24` and `engine/lshare.go:402-405` speak of 30 days of grace and
  an end on day 150; the constants are 90 days of grace and 90 of bleed, so the window closes
  on day 210. The model follows the constants.
- `engine/pool.go:160-164` promises the exact ceiling; it wraps when the ceiling is 2^63
  (`CeilingCanWrap`), and a seeded pool that takes such a deposit has a negative reserve
  (`WrappedDepositEmptiesThePool`). `StaysSoundExactly` gives the exact condition on a call.
- `engine/emission.go:87-97` calls every schedule with positive fields valid; eras of 2^63
  heights or more turn negative when cast (`LongClockBreaksTheLaw`).
- `engine/lshare.go:100-112` describes the share-rate ratchet as never falling. It falls at
  exactly one height of all, 3,922,624,220 heights past genesis in the 374th year, where its
  overflow check first fails (`RateFallsExactlyOnce`).
- `contract/app/main.go:353` says Good Accounting is armed in the 30 days before maturity; the
  window opens at maturity and lasts 90 days. The model follows the code.
- `engine/governance.go:317-340` does not ask how the members are listed; beyond ten of them
  the order decides whose votes count (`OrderNeverMattersExactly`). A selected group never has
  more.
- `contract/state/mint.go:256-258` says a sweep only ever closes what the bleed has fully
  consumed. A mint of a single unit can be swept by anybody before it matures, because an early
  end rounds its owner's half down to nothing (`NothingLeftExactly`).
- `contract/state/governance.go:70-87` has an offer give way to the weakest live seat, wherever
  it sits, but the cut at twenty then falls on the last stored slot. `OfferIsFairExactly` says
  when that drops somebody it should keep, `DrainedBoardDropsItsLiveSeat` is an input.
- `contract/state/claim.go:179-182` says a burn record moves nothing. Where a snapshot holds a
  claimable leaf of the same account too, it bars that account's claim for good
  (`BurnRecordBlocksTheClaim`, `HonestEntryExactly`).

## Model

| member | source | states |
|---|---|---|
| `Units.MulDivExact` | engine/units.go:73-117 | The two-word product and division give the truncated exact quotient whenever it fits an Amount, and fail in exactly the other cases: division by zero, an operand equal to the smallest int64, a quotient too large |
| `Units.AddCheckedExact` | engine/units.go:46-53 | Addition reports overflow exactly when the true sum has no int64 |
| `Units.MulDivFraction` | engine/units.go:73-117 | A proper fraction of an amount never fails, is its floor, and never exceeds the amount |
| `Emission.ComputeEraBudget` | engine/emission.go:105-120 | The budget loop with its early exits computes the recursive era budget |
| `Emission.BudgetsStayUnderCap` | engine/emission.go:65-120 | What all earlier eras used plus what the current era may still start never passes the cap, for every valid ratio |
| `Emission.BudgetsAreFloors` | engine/emission.go:105-120 | Every budget is the exact floor of the first era's part of the cap, then of the reduction of the budget before |
| `Emission.RewardIsFloored` | engine/emission.go:129-134 | For every valid schedule a height's reward is its era's budget over the era's heights, rounded down, if and only if the era fits an int64 or its negative cast is longer than the budget |
| `Emission.ComputeTotalEmittedAt` | engine/emission.go:152-182 | The era loop with its early returns computes TotalEmittedAt |
| `Emission.ClosedForm` | engine/emission.go:152-182 | For every valid schedule cumulative emission is what whole eras pay plus a straight line inside the current one (flat where an era does not fit an int64), between zero and the cap |
| `Emission.EveryHeightPaysItsReward` | engine/emission.go:129-182 | Every next height adds exactly its era's reward if and only if the era length fits an int64 or is so long that the first reward truncates to zero |
| `Emission.LongClockBreaksTheLaw` | engine/emission.go:92-134 | A schedule the code calls valid whose heights do not pay their reward |
| `Emission.LongClockPaysByTheEra` | engine/emission.go:152-182 | With eras too long for an int64, whole eras still pay their part of the budget at their end and nothing is paid inside one, within the cap |
| `Emission.EmissionMonotone` | engine/emission.go:152-182 | For every schedule the code calls valid, however long its eras, cumulative emission never falls and stays between zero and the cap |
| `Emission.EmissionAdds` | engine/emission.go:191-196 | For every valid schedule, however a stretch of heights is cut, the pieces' issuance adds up to the whole, which is never negative |
| `Emission.FirstErasPay` | engine/emission.go:37-88 | The schedule in force: nothing at genesis, 31,709,791 a height through the first 31,536,000 heights and 15,854,895 through the next |
| `Emission.SplitConserves` | engine/emission.go:249-263 | Split loses nothing: the two quarters are floored and Proof-of-Brain takes the rest |
| `Accumulator.StepConserves` | engine/accumulator.go:62-99 | One step hands out no more than came in and was held; it distributes everything or nothing, losing less than one accumulator unit per share |
| `Accumulator.EntitlementIsFlooredOnce` | engine/accumulator.go:110-119 | Shares times the rise over the scale, floored once, whenever that fits an Amount |
| `Accumulator.EntitlementNeverExceeds` | engine/accumulator.go:110-119 | An entitlement never exceeds the value the rise stands for, whatever the readings |
| `LShare.ComputeShareRate` | engine/lshare.go:113-140 | The compounding loop with its overflow exits computes the share rate |
| `LShare.RateAtLeastGenesis` | engine/lshare.go:113-140 | The rate stays between the genesis rate and an Amount at every height |
| `LShare.RateNeverFalls` | engine/lshare.go:100-140 | The ratchet never falls up to any height whose overflow checks pass |
| `LShare.RateStepExactly` | engine/lshare.go:113-140 | At any height whose overflow checks pass, the next height keeps the promise if and only if they pass there too or the rate already stands at its year's base |
| `RateYears.Year373` | engine/lshare.go:113-140 | The base rate of year 373, after as many roundings down, to the unit |
| `RateLimit.FitsExactlyUpTo` | engine/lshare.go:113-140 | The ratchet's overflow checks pass exactly up to 3,922,624,220 heights past genesis |
| `RateLimit.RateFallsExactlyOnce` | engine/lshare.go:100-140 | Over all heights the rate falls at that one and at no other |
| `RateLimit.PromiseHoldsExactly` | engine/lshare.go:100-140 | The rate never falls up to a height if and only if that height is no later than that one |
| `RateLimit.RateRisesInAStraightLine` | engine/lshare.go:113-140 | Within every year the rate's rise over its anniversary is the straight line to seven percent, rounded down once |
| `LShare.YearIsSevenPercent` | engine/lshare.go:103-140 | Every full year raises the rate by seven percent, rounded down, from the genesis rate on |
| `LShare.SharesAtMostTwoAndAQuarter` | engine/lshare.go:256-279 | Both bonuses together never grant more than 2.25 shares per unit locked |
| `LShare.SharesAtLeastTheBase` | engine/lshare.go:256-279 | Never fewer shares than the principal buys at the rate, and exactly those for one day without volume |
| `LShare.LongerAndLargerNeverEarnsLess` | engine/lshare.go:158-279 | More principal for more days earns at least as many shares |
| `MintTerms.SharesAreGranted` | engine/lshare.go:158-279 | Whatever is granted: what the principal buys at the rate, raised along a line to half for 1,095 days, then along a line to half again for volume, each step rounded down once |
| `MintTerms.TermsAreExact` | engine/lshare.go:256-279 | Those terms determine the shares |
| `MintTerms.LengthBonusIsALine` | engine/lshare.go:158-177 | Below the volume ramp one day earns the base, 1,095 days exactly half as much again, and every length its part of that half to within two roundings |
| `MintTerms.VolumeBonusIsALine` | engine/lshare.go:179-250 | Against the same mint without the ramp: nothing more up to its start, exactly half again from its end on, its part between, to within two roundings |
| `MintTerms.GrantedExactly` | engine/lshare.go:256-279 | Shares are computed exactly for a positive principal and 1 to 1,095 days, and are some exactly when the principal buys one at the rate |
| `LShare.SettleConserves` | engine/lshare.go:458-486 | Closing at any height splits principal plus rewards exactly into two non-negative parts, and an early end never pays above the principal |
| `LShare.OwnerGetsTheSurvivingPart` | engine/lshare.go:458-486 | The owner's part is the surviving fraction floored once: of the principal before maturity, of everything after |
| `LShare.CurvesAreStraight` | engine/lshare.go:373-431 | Recovery rises in a straight line from half, the bleed falls in one from all to nothing |
| `LShare.OwnerPartRisesThenFalls` | engine/lshare.go:373-486 | For fixed rewards the owner's part never falls up to the end of grace and never rises after maturity |
| `LShare.BleedEndsAtLiquidation` | engine/lshare.go:408-437 | Nothing survives the bleed exactly from the liquidation height on, if and only if the bleed spans at most 10^8 heights (every build is within it) |
| `LShare.ArmingNeverLowers` | engine/lshare.go:392-431 | Arming Good Accounting never lowers what survives |
| `LShare.ArmableExactlyWhileWhole` | engine/lshare.go:360-366 | A matured open unarmed mint can be armed exactly while nothing has bled |
| `MintTerms.WholeExactly` | engine/lshare.go:392-431 | A mint is whole exactly until 90 days past its maturity, an armed one 1,095 |
| `MintTerms.ArmableExactly` | engine/lshare.go:360-366 | Arming is open exactly from maturity for 90 days, never before |
| `Pool.SwapKeepsProduct` | engine/pool.go:72-91 | A swap is the floor of its proportional part and never lowers the product of the reserves |
| `Pool.SwapIsPaidExactly` | engine/pool.go:72-91 | A swap is paid exactly when both sides hold something, the input fits beside its reserve and its part is a unit or more |
| `Pool.SwapPaysTheMost` | engine/pool.go:72-91 | A swap pays the most any output keeping the product could |
| `Pool.SplittingNeverPaysMore` | engine/pool.go:72-91 | Cutting a swap into any number of pieces never pays more than the whole |
| `Pool.RoundTripNeverGains` | engine/pool.go:72-91 | Swapping there and straight back never returns more than went in |
| `Pool.HbdRequiredIsTheCeiling` | engine/pool.go:165-182 | The HBD asked for is exactly the ceiling of hbdReserve·lcIn/lcReserve if and only if that ceiling is an Amount |
| `Pool.CeilingCanWrap` | engine/pool.go:165-182 | A deposit whose ceiling is 2^63 and whose answer wraps to the smallest int64 |
| `Pool.StaysSoundExactly` | engine/pool.go:72-201 | A sound pool is sound after a call if and only if the call fits, as its caller can check: any swap, any withdrawal but of every share, any deposit refused or whose three new figures are Amounts |
| `Pool.CallMovesExactly` | contract/state/pool.go:198-474 | What each call on a sound pool moves, to the unit: swaps the floored part, deposits the amount, the ceiling of HBD and the floored shares, withdrawals both floored parts save HBD under a thousandth; what is refused moves nothing |
| `Pool.WrappedDepositEmptiesThePool` | engine/pool.go:146-182 | A sound pool and a deposit whose HBD part wraps, is taken under any limit and leaves a negative reserve |
| `Pool.DepositThenWithdrawNeverGains` | engine/pool.go:146-201 | A ratio deposit burned straight back never returns more of either asset |
| `Pool.DepositSharesAreProportional` | engine/pool.go:146-158 | A first deposit earns a share a unit; a later one its proportion of the shares floored once, and fails only when that is nothing or does not fit |
| `Pool.WithdrawalIsProportional` | engine/pool.go:188-201 | A withdrawal pays its proportion of both reserves floored once, all of both for all shares, and is refused only for shares that are not there |
| `Pool.StepKeepsWorth` | engine/pool.go:72-201 | Every swap, deposit and partial withdrawal that fits leaves a sound pool and keeps the liquidity value per share |
| `Pool.ValuePerShareNeverFalls` | engine/pool.go:72-201 | Over any run of calls that fit, asking nothing of the states reached, the pool stays sound and lc·hbd/shares² never falls |
| `Merkle.ComputeItoa` | engine/merkle.go:158-178 | The digit loop over the fixed buffer writes the decimal text, including what it leaves for the smallest int64 |
| `Merkle.WriteDigits` | engine/merkle.go:165-172 | The loop fills the buffer from its end with the digits still to write and no more than it holds |
| `Merkle.ItoaIsDecimal` | engine/merkle.go:158-178 | A positive amount is written in decimal digits without a leading zero that read back as it, a negative one after a sign |
| `Merkle.LeafTextSpelledOut` | engine/merkle.go:34-41 | Two leaves spelled out character by character |
| `Merkle.LeafTextInjective` | engine/merkle.go:34-41 | Two leaf texts are equal only for the same account, amounts and kind, even when an account contains the separator |
| `Merkle.PairInjective` | engine/merkle.go:45-62 | Sorted-pair input determines the unordered pair |
| `Merkle.PairSymmetric` | engine/merkle.go:45-62 | The parent does not depend on the order of its children |
| `Merkle.SmallerChildFirst` | engine/merkle.go:45-62 | What is hashed holds both children, the one with the smaller byte at their first difference in front |
| `Merkle.SmallTrees` | engine/merkle.go:80-112 | The roots of one to five leaves written out: neighbours paired, an odd last one moved up as it is |
| `Merkle.VerifyProof` | engine/merkle.go:65-74 | The loop accepts exactly the proofs of at most 32 siblings that climb to the root |
| `Merkle.BuildTree` | engine/merkle.go:80-112 | The in-place builder returns the root of the leaves and each leaf's own proof |
| `Merkle.EveryLeafVerifies` | engine/merkle.go:65-112 | For up to 2^32 leaves every leaf's proof verifies against the root and is short enough |
| `Merkle.AcceptedTextIsALeaf` | engine/merkle.go:34-112 | Unless two strings actually hashed collide, or a leaf text spells out a digest, an accepted proof belongs to a leaf of the tree, whatever siblings were supplied |
| `Merkle.AcceptedEntryIsCommitted` | contract/state/claim.go:230-244 | The contract accepts only the snapshot's own entries: account, both amounts and kind |
| `Indexer.MemoryIndexStore.SyncIndex` | api/src/indexer.ts:63-112 | One call keeps the stored head contiguous if and only if the arrivals, or the head not yet backfilled, fit in the pages walked; statuses are refreshed, `complete` is the stored flag, every page but the first makes progress; the page budget is kept and used up while history is incomplete, and `added` counts exactly the new ids |
| `Indexer.MemoryIndexStore.StorePage` | api/src/indexer.ts:78-82 | A page's rows are stored, those already known overwritten only when asked, and fewer than all are new exactly when one was known |
| `Indexer.MemoryIndexStore.SyncRun` | api/src/indexer.ts:63-112 | Over any number of calls against a growing log the index stays sound, and once a call reports complete the store holds the whole history |
| `Indexer.MemoryIndexStore.SyncToCompletion` | api/src/indexer.ts:90-111 | On a quiet chain repeated calls of at least two pages finish the backfill |
| `Indexer.TooManyArrivals` | api/src/indexer.ts:73-87 | More arrivals than the pages walked, on a store that claims them, break contiguity |
| `Governance.BetterThanIsStrictOrder` | engine/governance.go:259-264 | More shares first, then the lexicographically smaller account, is a strict total order |
| `Governance.LexLessExactly` | engine/governance.go:259-264 | Account order without recursion: smaller at the first difference, or ended there |
| `Insertion.ShiftIn` | engine/governance.go:285-298 | The backward shift in place is insertion into the sorted window |
| `Governance.ConsensusGroup` | engine/governance.go:274-305 | The streaming insertion returns the first ten of all positive holders sorted, for every list length |
| `Governance.SeatsGoToTheBest` | engine/governance.go:274-305 | Nobody outside the group of at most ten outranks or holds more than anybody in it, and a seat stays empty only for want of holders |
| `Governance.TopTenIgnoresOrder` | engine/governance.go:274-305 | The group does not depend on the order holders are listed in |
| `Board.Leaderboard.WeakestOnBoard` | contract/state/governance.go:86-95 | The scan returns the fold Weakest over all seats |
| `Board.WeakestIsOutranked` | contract/state/governance.go:86-95 | Every other seat outranks the one the scan returns, in whatever order the board is stored |
| `Board.Leaderboard.Offer` | contract/state/governance.go:99-153 | The early exits, the removal, the one-pass insertion and the cut leave the specified board |
| `Board.OfferSeatsExactly` | contract/state/governance.go:99-153 | An offered holder has a seat if and only if it had one, there was room, or it outranks the weakest |
| `Board.OfferIsFairExactly` | contract/state/governance.go:99-153 | An offer drops nobody who outranks somebody it keeps if and only if it evicts nobody or the last stored slot is the weakest |
| `Board.InOrderIsFair` | contract/state/governance.go:99-153 | On a board in order at live shares every offer is fair |
| `Board.DrainedBoardDropsItsLiveSeat` | contract/state/governance.go:70-153 | Nineteen drained accounts and a live one in the last slot: an offer of a smaller newcomer drops the live one and keeps all nineteen |
| `Board.ChangeKeepsOrder` | contract/state/governance.go:99-153 | One account's change of shares, offered at once, leaves a board in order in order |
| `Board.ChangeKeepsCompleteExactly` | contract/state/governance.go:99-153 | It leaves no deserving holder out if and only if an account with a seat still outranks every holder without one |
| `Board.CompleteBoardGivesTheTopTen` | contract/state/governance.go:182-189 | Where nobody deserving is left out, the group taken from twenty accounts is the top ten of all holders |
| `Board.GroupIsTheTopTenOfAll` | contract/state/governance.go:12-34 | So it is over any run of offered changes in which nobody seated falls behind, though all holders are never listed |
| `Governance.EffectiveValue` | engine/governance.go:355-383 | The insertion into a fixed window returns the lower median of the clamped preferences, or the default |
| `Governance.LowerMedianByCount` | engine/governance.go:378-382 | The lower median by counting votes below and at most it |
| `Governance.MajorityHoldsTheMedian` | engine/governance.go:317-340 | A strict majority inside an interval keeps the value inside it |
| `Governance.ValueByPreferences` | engine/governance.go:355-393 | Over the members' own preferences: the default where nobody has one, otherwise at most x, for every x the bounds leave open, exactly when at least half of them prefer at most x |
| `Governance.MajorityGetsItsWay` | engine/governance.go:317-393 | A strict majority preferring something between lo and hi gets something between them, one at the maximum or beyond the maximum, one at the minimum or below the minimum |
| `Governance.ValueStaysInBounds` | engine/governance.go:355-393 | The value in force never leaves the bounds when the default is inside them |
| `Governance.ValueIgnoresMemberOrder` | engine/governance.go:355-383 | Listing at most ten members in another order never changes the value |
| `Governance.GroupOrderNeverMatters` | engine/governance.go:274-383 | However the selected group is listed, the value in force is the same |
| `Governance.OrderNeverMattersExactly` | engine/governance.go:355-383 | Order is irrelevant for all lists of a length if and only if that is at most ten |
| `ProofOfBrain.SplitsConserve` | engine/pob.go:100-330 | Both one-step splits lose nothing |
| `ProofOfBrain.RewardPool.Claim` | engine/pob.go:240-257 | Whatever the pool holds, the claim with its clamps is the specified step; a sound pool pays the floor of the claim's share, loses exactly that, and leaves no lower price per rshare |
| `ProofOfBrain.ClaimIsProportional` | engine/pob.go:240-257 | One claim is the floor of its share and never lowers what is left per rshare |
| `ProofOfBrain.OrderFreeClaims` | engine/pob.go:240-257 | In any order each post gets at least the floor of its share of the starting balance, together at most the balance, which empties exactly when all rshares claim |
| `ProofOfBrain.Post.AddVote` | engine/pob.go:288-303 | A vote counts exactly while the post is open and replaces the account's earlier vote; rshares stay the sum of the votes if and only if that sum is an int64 |
| `ProofOfBrain.Post.Payout` | engine/pob.go:321-374 | The rewards add up to exactly what left the pool; each vote with a part in the quarter is paid its floored part by name and once and nobody else is; of every reward a fifth is liquid, rounded down |
| `ProofOfBrain.CuratorsWithinPot` | engine/pob.go:350-366 | Curators together never exceed their quarter |
| `ProofOfBrain.CuratorsArePaid` | engine/pob.go:350-366 | Every vote whose part of the pot is a unit or more has one reward in its voter's name, of that part floored, and there is no other |
| `ShareBook.RetireTakesExactly` | contract/state/accrual.go:185-196 | Where balances cover their entries a drain takes off exactly the listed shares; the floor at zero never bites |
| `ShareBook.DrainKeeps` | contract/state/accrual.go:168-204 | Draining one chunk keeps every stored figure equal to the sum over open mints it stands for, even in the middle of a day |
| `ShareBook.CloseDayKeeps` | contract/state/accrual.go:311-328 | Closing a drained day drops exactly its mints from denominator, votes and schedules |
| `ShareBook.AddMintKeeps` | contract/state/mint.go:167-230 | A mint enters every figure it belongs in and no other, its locator naming the chunk that holds its entry |
| `ShareBook.NewChunkOnlyWhenNeeded` | contract/state/accrual.go:107-147 | An entry goes to the last chunk of its day while that holds fewer than 25, and to a new one otherwise |
| `ShareBook.CloseMintKeeps` | contract/state/mint.go:360-381 | A mint closed at any moment, even during its own day's drain, leaves nothing behind and is taken out of nothing twice |
| `ShareBook.ArmMintKeeps` | contract/state/mint.go:405-419 | Arming moves no share |
| `ShareBook.ItsEntryIsListed` | contract/state/accrual.go:107-227 | The stored locator of an unretired mint names a chunk holding its entry |
| `Accrual.DayEmissionIsExact` | contract/state/accrual.go:294-301 | A whole day's emission is the rise of the closed form and a multiple of eight, because no day straddles two eras |
| `Accrual.OncePerCallIsExact` | contract/state/accrual.go:276-348 | Crediting the pools once per call equals crediting them daily, for every number of days, if and only if a day's emission is a multiple of eight |
| `Accrual.LoopKeepsFold` | contract/state/accrual.go:286-329 | Wherever a call stops, even inside a list, the day-by-day fold from there ends where the fold from its start ends |
| `Accrual.SlicingIndependence` | contract/state/accrual.go:261-358 | Any calls with any day caps and retire budgets that reach a day leave accumulator, held value, active shares, checkpoints, pools, counters, lists and votes as the plain day-by-day fold does |
| `Accrual.BehindMovesExactly` | engine/accumulator.go:121-149 | A call that is behind finishes a day or drains a chunk if and only if the chunk it stands at fits its budget; otherwise it changes nothing |
| `Accrual.WalksAsFarAsExactly` | contract/state/accrual.go:261-330 | How far a call walks, to the day: it reaches a day if and only if that is within target, cap and budget in those terms |
| `Accrual.DaysAreCapped` | contract/state/accrual.go:262-264 | A call never closes more days than its caller allows, nor more than 1,200 |
| `Accrual.OrdinaryCallCatchesUpExactly` | contract/state/accrual.go:244-246 | An ordinary transaction catches up if and only if at most 1,200 days are behind and at most 25 entries retire |
| `Accrual.CatchesUpExactly` | contract/state/accrual.go:261-358 | A call catches up if and only if the days behind are within its cap, the caller's own from 1 to 1,200 and 1,200 otherwise, and the retirements among them within its budget |
| `Accrual.WalkCreditsExactly` | contract/state/accrual.go:331-348 | A call's four credits are an eighth, three eighths, a quarter and a quarter of exactly the emission it newly counted |
| `Accrual.WalkKeepsGood` | contract/state/accrual.go:261-358 | Any call keeps the book sound, the pool solvent and the emitted counter on the closed form |
| `Accrual.FoldKeepsGood` | contract/state/accrual.go:261-358 | So does the plain fold |
| `Accrual.FinishKeepsSolvent` | engine/accumulator.go:59-99 | A day of emission never lets the yields owed plus the value held exceed the L-Share pool |
| `Accrual.RecycleKeeps` | contract/state/accrual.go:366-375 | Recycled value never promises more than it paid in |
| `Daily.StepFlowsIn` | engine/accumulator.go:62-99 | When an inflow and what was held are shared out, all of it, each share's part floored, and when all of it is held instead |
| `Daily.DayFlowsIn` | contract/state/accrual.go:286-329 | One day: a quarter of the schedule's issue of that day flows, in those terms, to the mints open and due on it or later; pools and counter gain the whole issue |
| `Daily.DayOfExactly` | contract/state/accrual.go:55-62 | The day of a height is the one it falls in, counted from genesis |
| `Accrual.RegisterKeepsGood` | contract/state/mint.go:177-201 | A mint stamped with the live reading joins without a claim on anything before it |
| `Accrual.CloseKeepsGood` | contract/state/mint.go:337-381 | A mint may take out anything up to what it earned and everybody else stays covered |
| `Accrual.YieldIsInThePool` | contract/state/mint.go:338-342 | No open mint's entitlement exceeds the pool: the overdraw guard is unreachable |
| `Accrual.YieldIsTheSumOfDailyRises` | engine/accumulator.go:104-119 | By any later day a mint has earned its shares times the sum of the daily rises up to the end of its maturity day and not beyond, floored once: past that day, the amount its owner is paid |
| `Accrual.LoopKeepsCheckpoints` | contract/state/accrual.go:315-325 | A checkpoint once written is never written again |
| `Store.AccrualStore.DrainExpiryList` | contract/state/accrual.go:168-204 | The chunk loop with stored cursor drains exactly as many whole chunks as the budget takes |
| `Store.AccrualStore.FinishOneDay` | contract/state/accrual.go:294-328 | The rest of the loop body is one specified day |
| `Store.AccrualStore.WalkLoop` | contract/state/accrual.go:286-329 | The loop over the stored day toward the target, its results in locals, is Loop |
| `Store.AccrualStore.AccrueWalk` | contract/state/accrual.go:261-358 | The walk over mutable rows and locals, written back once, is Walked; its supply mint never fails |
| `Store.AccrualStore.AccrueFully` | contract/state/accrual.go:401-404 | The loop terminates by days left then chunks left, and ends in the plain fold |
| `Store.AccrualStore.ScheduleExpiryEntries` | contract/state/accrual.go:107-147 | Writing each chunk once equals appending the entries one at a time, and every returned locator is the chunk its entry went to |
| `Store.AccrualStore.RemoveExpiryEntry` | contract/state/accrual.go:209-227 | Removes the first equal entry of one chunk, and the chunk with its last entry |
| `Store.AccrualStore.Recycle` | contract/state/accrual.go:366-375 | Recycled value enters the pool and is shared out whole or held whole, exactly when; the pool still covers every open mint and nothing else of the walk moves |
| `Store.AccrualStore.RegisterMint` | contract/state/mint.go:153-230 | Refused while accrual is behind; otherwise the mint is stamped and entered in every row |
| `Store.AccrualStore.YieldOf` | contract/state/mint.go:309-342 | In a good state the close of an open mint takes its entitlement in full, never cut by the pool; none while a matured mint's day has not closed |
| `Store.AccrualStore.CloseRows` | contract/state/mint.go:353-380 | The rows a close writes |
| `Ledger.StepKeepsSane` | contract/state/claim.go:49-227 | Every transaction within the cap check's range, accepted or refused, keeps supply conserved, the pool solvent, the book sound and the migration figures consistent |
| `Ledger.RunKeepsSane` | contract/state/claim.go:49-227 | So does every run of such calls with heights that do not go back |
| `Ledger.CloseKeepsSane` | contract/state/mint.go:280-398 | Ending, claiming or sweeping a mint conserves every unit and keeps every other mint covered |
| `Ledger.ActiveIsBounded` | contract/state/mint.go:201 | Live shares never outgrow nine quarters of what is locked |
| `Guarantees.StepStaysSaneExactly` | contract/state/claim.go:49-227 | For any typed call a sane state stays sane if and only if the call is not an accepted commit whose totals are past what the cap check can judge |
| `Guarantees.RunStaysSaneExactly` | contract/state/claim.go:49-227 | For every run, the state it ends in is sane if and only if no such commit was accepted anywhere in it; nothing later repairs one |
| `Guarantees.AtEveryReachableState` | contract/state/ledger.go:33-58 | From genesis through any run without an accepted commit past the cap check: supply within 51M, the counter equal to the closed form at the settled height, every unit in a balance, a position or a pool, all yield covered, votes and denominator exact |
| `Guarantees.FiguresFit` | contract/state/accrual.go:185-320 | Balances, votes, day aggregates, live shares, pools and the held value stay far from the edge of an int64, so the unchecked sums are exact; the accumulator's reading, added to under a check, stays an int64 |
| `Guarantees.SettledIsNeverAhead` | contract/state/accrual.go:331-348 | The settled height is never past the latest call, and less than a day short of it once the walk is current |
| `Guarantees.AcceptedSnapshotMeetsTheCapExactly` | contract/state/claim.go:62-68 | An accepted commit is under the hard cap if and only if the two totals stay below 2^63 less the emission cap |
| `Guarantees.HugeSnapshotPasses` | contract/state/claim.go:62-68 | A snapshot of almost 2^63 units that the check lets through |
| `Guarantees.NobodyCollectsTwice` | contract/state/claim.go:130-132 | After an accepted claim every later claim of that account is refused, whatever lies between |
| `Guarantees.SweepFixesTheSupply` | contract/state/claim.go:205-227 | A sweep brings the migrated supply to the committed total exactly; it never moves again and no second sweep is accepted |
| `Guarantees.ClaimPlacesEveryUnit` | contract/state/claim.go:144-176 | A claim's minted supply equals credited plus locked plus recycled |
| `Guarantees.ClaimPaysItsSigner` | contract/state/claim.go:144-176 | An accepted claim pays its signer alone; before maturity the stake is one more mint of 30 days from genesis and the others stay, from maturity on what bled away goes into the pool and through the reading |
| `Guarantees.ClosePaysTheOwner` | contract/state/mint.go:292-389 | An accepted close pays the owner alone the surviving part of principal and full entitlement, ends that mint and no other, and takes the rest into the pool and through the reading over the shares left live |
| `Guarantees.SweepTakesFromNobody` | contract/state/mint.go:257-274 | A sweep moves no balance |
| `Guarantees.CreateLocksWhatItDebits` | contract/state/mint.go:107-142 | An accepted mint locks exactly what it debits, for its days and the shares its terms grant, and earns from the live reading on |
| `Guarantees.RefusalMovesNoMoney` | contract/state/mint.go:120-140 | A refused transaction leaves balances, supply, the migration record and every mint as they were |
| `Guarantees.OnlyCommittedEntriesAreTaken` | contract/state/claim.go:113-244 | Through any run only the snapshot's own entries are ever paid or recorded |
| `Acceptance.CommitIsAcceptedExactly` | contract/state/claim.go:49-86 | A commit is accepted if and only if it is the first, on the first day, of non-negative totals within 31 million LASSECASH, or within the emission cap below 2^63 |
| `Acceptance.ClaimIsAcceptedExactly` | contract/state/claim.go:113-157 | A claim is accepted if and only if it comes before day 210, of a proved leaf, the account's first, within the committed total, with the walk current while the stake is locked |
| `Acceptance.RecordIsAcceptedExactly` | contract/state/claim.go:183-199 | A burn record is accepted if and only if it is the account's first receipt and its leaf is proved |
| `Acceptance.SweepIsAcceptedExactly` | contract/state/claim.go:205-216 | The sweep is accepted if and only if it is the first, from day 210 on, with the walk current |
| `Acceptance.DeadlineIsLiquidation` | contract/state/claim.go:37-42 | The claim window closes exactly where the stakes' mint would be liquidated |
| `Acceptance.CreateIsAcceptedExactly` | contract/state/mint.go:107-142 | A mint is accepted if and only if its signer holds the principal, of one LASSECASH or more, for 1 to 1,095 days, with the walk current, enough for a share at the rate |
| `Acceptance.CloseIsAcceptedExactly` | contract/state/mint.go:280-344 | A close is accepted if and only if the mint is open and the named owner's, its maturity is ahead or its last day closed, and for a sweep the owner's part is nothing |
| `Acceptance.OwnerCanCloseExactly` | contract/state/mint.go:280-344 | After some number of advances an owner's close of an open mint is accepted, if and only if it is not the rest of the mint's maturity day |
| `Acceptance.NothingLeftExactly` | contract/state/mint.go:257-348 | The owner's part is nothing if and only if less than a unit survived the bleed, or before maturity the mint is of a single unit |
| `Acceptance.ArmIsAcceptedExactly` | contract/state/mint.go:405-419 | Arming is accepted if and only if the mint is the signer's, open, unarmed, and within 90 days from its maturity |
| `Collection.HonestEntryIsNeverLost` | contract/state/claim.go:113-177 | Through any calls of anybody, a claimable entry without a rival is at every moment before the deadline collected in both amounts, or its claim is accepted, if need be after calls of advance |
| `Collection.HonestEntryExactly` | contract/state/claim.go:113-200 | That holds if and only if the snapshot has no other entry of the same account with anything in it |
| `Collection.BurnRecordBlocksTheClaim` | contract/state/claim.go:130-200 | A snapshot with a claimable and a burned leaf of one account: anybody records the burn, and the account's claim is refused for good |
| `Collection.EnoughAdvances` | contract/state/accrual.go:248-257 | At any sane state some number of calls of advance makes the walk current, and they move no money |
| `Guarantees.YieldIsFixedOnceTheDayCloses` | contract/state/mint.go:309-342 | Once a mint's last day is closed its yield is the same whenever it is claimed, and is paid in full |
| `Guarantees.SweepFillsThePool` | contract/state/claim.go:205-227 | An accepted sweep moves no balance and no position and takes exactly what was never claimed into the L-Share pool and through the reading |
| `Interleaving.CatchesUpTheSame` | contract/state/accrual.go:244-358 | What an ordinary transaction catches up from one state it also catches up from further along the same course, ending in the same state |
| `Interleaving.AdvancesChangeNothing` | contract/state/accrual.go:248-257 | Put into a run of accepted transactions anywhere, with any caps, advances leave every transaction accepted and the same money, record and mints, the walk on the same course; asked is only that no call reads the walk or recycles before it is current |
| `LateClaim.AdvanceBeforeALateClaimMatters` | contract/state/claim.go:158-173 | A run of accepted calls from genesis after which a late claim and an advance are accepted in either order and end in different states |
| `Interleaving.CommitAfterAnAdvanceExactly` | contract/state/claim.go:49-61 | After an advance a commit is still accepted if and only if that closed no day |
| `Contract.Contract.SetSnapshot` | contract/state/claim.go:49-86 | The commit's checks in order, its unchecked sums, and its whole new state; its supply mint and credit never fail |
| `Contract.Contract.ClaimMigration` | contract/state/claim.go:113-177 | The claim's guards, walk, registration or settlement, and writes are the specified transaction; supply mint and credit never fail |
| `Contract.Contract.SweepUnclaimed` | contract/state/claim.go:205-227 | The sweep is the specified transaction |
| `Contract.Contract.CreateMint` | contract/state/mint.go:107-142 | The mint is the specified transaction: no debit on any refusal |
| `Contract.Contract.EndPosition` | contract/state/mint.go:280-398 | The close is the specified transaction; its credit never fails |
| `App.ChainIsTheRunOfItsAcceptedCalls` | contract/app/main.go:92-101 | On the chain, where a refused call leaves no trace, every run ends where its accepted calls alone lead |
| `App.ChainStaysSaneExactly` | contract/app/main.go:92-101 | So supply is conserved and the pool solvent at every height, whatever was called and refused before, if and only if no commit past the cap check was kept |
| `App.App.SetSnapshot` | contract/app/main.go:130-148 | Accepted exactly for the owner where the commit is; the whole new record; pays the burn account alone, stays under the hard cap if and only if the check's sums do not wrap; a refusal leaves everything |
| `App.App.ClaimMigration` | contract/app/main.go:150-165 | Accepted exactly where a claim is; keeps the state sane, pays the signer alone, once, and places every unit it issues; a refusal leaves everything, the walk included |
| `App.App.RecordBurn` | contract/app/main.go:167-182 | Accepted exactly where a record is; keeps the state sane, moves no unit, and records nothing but the snapshot's own burned entries |
| `App.App.SweepUnclaimed` | contract/app/main.go:183-191 | Accepted exactly where the sweep is; takes from nobody, fills the pool with exactly what was never claimed, and fixes the supply |
| `App.App.Advance` | contract/app/main.go:276-295 | Closes as many days as its caller allows and at most 1,200, is current exactly when they and 50 retirements reach today; moves nothing but the walk, which stays on the course of the plain fold and gets nearer whenever it is behind |
| `App.App.Mint` | contract/app/main.go:299-314 | Accepted exactly where a mint is; locks exactly what it debits, for the shares its terms grant; a refusal leaves everything |
| `App.App.ClaimMint` | contract/app/main.go:316-331 | Accepted exactly where a close is, early ends included; pays the owner alone the surviving part of principal and full entitlement, and ends that mint and no other |
| `App.App.SweepMint` | contract/app/main.go:333-350 | Accepted exactly when the owner would get nothing; moves no balance, whoever calls it |
| `App.App.GoodAccounting` | contract/app/main.go:352-366 | Accepted exactly inside the window, which for a matured mint is while it is whole; moves that one flag, and never lowers what survives at any height |

## Left out

- SHA-256 itself (`engine/sha256.go`), hexadecimal text, and the splitting and parsing of arguments (`contract/state/codec.go`): a hash that does not parse is an absent option.
- The string codec of mint records, chunk rows and receipts: rows are typed values, so an account containing the row separator is not modelled (the leaf text, where it could matter to a claim, is).
- Mint numbering per owner and the account roll: they feed displays, not amounts. The leaderboard is modelled on its own, over any shares; that a mint and a close offer their owner is not tied to the transactions.
- The contract's own bookkeeping of Proof-of-Brain windows, posts, pending balances and monthly mints: the engine's pool, vote and payout steps are modelled, their schedule is not, so the viral, deep and liquidity pools only grow in a run.
- Liquidity tranches, loyalty and eviction, the liquidity pool's reward accumulator, HBD custody and payout rounding: single-formula members on top of the modelled accumulator and pool.
- Transfers, burns by users and pool funding: two-row moves of balances.
- The token-ledger backend and its failures: a failed foreign call unwinds the transaction, so supply mints and credits are only proved not to fail for lack of range.
- The push migration (`CreditMigration` and its batches), absent from the production build; migrated supply therefore starts at zero before the commit.
- Governed bounds as state: the volume parameters in force are arguments of `CreateMint` within an Amount, and `EffectiveValue` is proved on its own.
- Registering several mints at once: only one is ever registered by a modelled transaction; the bulk row writer is proved for any number of entries.
- Vote power regeneration, promotion windows, decimal formatting, alive-supply and yield-rate figures: easy members.
- Calls of the indexer during which the node's log changes: each call sees one log, arrivals fall between calls.
- Ledger.StepKeepsSane: asks a snapshot within the cap check's range, a named signer and governed volume bounds within an Amount of each call; outside that range the commit itself breaks the cap for good, exactly as StepStaysSaneExactly and RunStaysSaneExactly state. The entry points promise a sane state under the same conditions, which they name.
- Interleaving.AdvancesChangeNothing: its condition is sufficient, and one way; where a call does recycle while the walk is behind, whether the order shows depends on the roundings of the days between. LateClaim.AdvanceBeforeALateClaimMatters shows a run where it does, and for a commit CommitAfterAnAdvanceExactly is exact.
- Indexer.MemoryIndexStore.SyncToCompletion: needs a budget of two pages, because with one the head takes it and the backfill never moves, as SyncIndex states.

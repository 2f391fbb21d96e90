# ADX: a Dafny model of the ad exchange's core

This project models six parts of the ADX advertising exchange and proves what they are for.
`dafny verify dfyconfig.toml` verifies all of it.

| part | files |
|---|---|
| Batch matching engine: price heaps, greedy matching, clearing price, snapshots, and the C++ engine's sorted vectors | `Numbers`, `Orders`, `OrderHeap`, `Matching`, `History`, `Sorting`, `Clearing`, `PriceLevels`, `Engine`, `VectorBook`, `EngineAgreement` |
| Blocklace DAG and cordial miners | `Blocklace`, `BlocklaceRounds`, `BlocklaceOrder`, `BlocklaceDag`, `CordialMiners`, `MinerHeights`, `MinerRuns` |
| Paillier encryption of bids, with the number theory it rests on | `NumberTheory`, `Fermat`, `BigBytes`, `Paillier`, `PaillierMasks`, `PrivateAuction` |
| Escrow contract, chain-VM escrow and settlement service | `RealSums`, `MapSums`, `Escrow`, `EscrowMoney`, `EscrowContract`, `GoEscrow`, `SettlementRuns`, `SettlementMoney`, `Settlement` |
| Second-price auctions | `Sorting`, `Auctions` |
| Ad-slot market maker and rate limiter | `AdMM`, `RateLimiter` |

Objects that the source updates in place are classes whose methods are proved to compute a function of the old
state (`View`, `Contents`); the theorems are about those functions, over every input and over whole runs.

## How the source is read

- Prices, decimals and decay factors are exact reals. Unsigned 64-bit additions wrap where the source's do;
  Solidity's 256-bit arithmetic reverts where it can overflow and is proved not to elsewhere.
- Clocks, random masks, fresh identifiers, token approvals and the auction's decay factor (0.1 to 1) are parameters.
- A locked method is one atomic step. `ProposeHeader` and `ReceiveHeader` hold no lock: in `CordialMiners` each of
  their calls to the DAG, the Byzantine test and the adding of a header included, and each load and store of the
  miner's round is a step of its own, with anything in between, other calls of the same miner included.
- The methods of the Go escrow and of the settlement service hold no lock at all. `SettlementRuns` takes each call as
  one step, in any order; calls that race on the same records are outside the model.
- `sort.Slice`, `sort.Float64s` and `std::sort` promise no order between equal keys, and the contract used for them
  promises none. Matching is described by a relation that leaves all ties open.
- The network of miners loses, repeats and reorders headers. A header's sender is its author, an ID has one content,
  and proposals use fresh IDs. Authors outside the protocol send what they like.
- AUSD is an EIP-20 token that moves exact amounts and whose supply fits 256 bits. Neither the contract nor the zero
  address sends transactions.

Where comments and code disagree the model follows the code: `Less` compares prices only, although
`matchOrders` speaks of price-time priority (`pkg/dex/engine_pure_go.go:121`); equivocating vertices are rejected,
although the comment says they are included (`blocklace/dag.go:183`); tips are vertices without successors, all of
them delivered (`blocklace/dag.go:203`); every bid is decrypted to find the winner (`pkg/fhe/privacy.go:353`); the
pool's decay is linear (`pkg/chainvm/adslot_rpc.go:440`).

## Where a promise does not hold, and exactly when it does

- Winners of a batch auction are at least half of the matches exactly when the median price is nonnegative or there
  is no decay (`Clearing.AtLeastHalfWin`, `Clearing.NegativePriceNoWinner`).
- A miner is flagged by itself exactly if a proposal of its own has the round of a header that it added after reading
  the tips for that proposal (`CordialMiners.SelfFlagExactly`): of two overlapping proposals the second is refused
  exactly if both have the same round (`CordialMiners.OverlapExactly`, and a run in `MinerRuns.OverlapFlagsItself`). A
  miner whose proposals do not overlap is never flagged, and other replicas never flag a miner in either case.
- Two headers of a miner share a height exactly if one of its accepted proposals has the height of a header sent before
  (`MinerHeights.HeightRepeatsExactly`). Behind that is either an overlap, the second header being built while the first
  proposal is under way at that round (`MinerRuns.OverlapRepeatsHeight`), or a write that lowers the round, as of a
  catch-up that compared before proposals and writes after them (`MinerRuns.CatchUpRepeatsHeight`); there is no other
  cause (`MinerHeights.HeightRepeatCause`). A miner that does one thing at a time repeats no height
  (`MinerHeights.HeightsNeverRepeat`).
- The sequence is no total order across replicas (`BlocklaceOrder.ConcurrentHeaders`): replicas with the same headers
  deliver one header before another in any case exactly if it lies below it (`BlocklaceOrder.DeliveryOrderExactly`).
- A mask decrypts every plaintext exactly if it shares no factor with n (`PaillierMasks.MaskExactly`); if one prime p was
  drawn twice, exactly if moreover its (p - 1)th power is 1 modulo p^2 (`PaillierMasks.MaskExactlyTwice`). A key serves
  all masks without common factor exactly if its primes differ (`PaillierMasks.KeyExactly`). The code checks none of it.
- A negative bid decrypts to almost n. The private auction picks the largest plaintext exactly when the bids do not mix
  signs (`PrivateAuction.WinnerHasLargestCents`, `PrivateAuction.NegativeBidWins`).
- While a reservation is unsettled exactly one of settling and releasing is possible, unless the payout product
  overflows 256 bits before the expiry (`Escrow.SettleOrRelease`, `Escrow.HugeReservationIsStuck`).
- The contract's AUSD equals its liabilities plus what was sent to it directly (`Escrow.SurplusIsUnsolicited`).
- The escrow of a guaranteed deal is negative, and raises the available budget, exactly if none of its three factors is
  zero and an odd number is negative: the count as an int64, the price and one plus the penalty rate
  (`GoEscrow.DealEscrowNegative`, `GoEscrow.HugeDealIsNegative`). A campaign then has more in use than was paid into it exactly if the deals accepted
  for it add up to less than zero (`SettlementRuns.WithinTotal`, `SettlementRuns.DealExceedsFunding`).
- The Go escrow account gains the sum of all campaign totals exactly if no accepted funding came from that account
  itself (`SettlementRuns.BackedByAUSD`, `SettlementRuns.EscrowFundsItself`).
- RealTimePayouts counts the settled reservations exactly if none was settled by the escrow directly
  (`SettlementRuns.PayoutsCountSettled`, `SettlementRuns.DirectSettlementIsNotCounted`).
- An accepted swap keeps the AUSD reserve nonnegative and the product at least decay times the old one exactly if it
  does not overflow int64 (`AdMM.SwapKeepsProduct`). In a pool of less than 2^63 slots that means: no sale that takes
  the slots to 2^63 or more without wrapping, no payment that int64 reads as taking out more than the reserve
  (`AdMM.InRangeSwap`, `AdMM.HugeSaleOverflows`). For decay factors of any sign the exact signs are in
  `AdMM.SellKeepsReserves` and `AdMM.BuyKeepsReserves`, with a rate above 1 in `AdMM.NegativeDecay`.
- No run of swaps without decay and overflow extracts AUSD exactly if the pool has less than 2^63 slots, or just that
  many and at most one AUSD (`AdMM.NeverLeaksExactly`). The round trip fails in a pool of 2^63 slots and more AUSD
  (`AdMM.HugeRoundTripGains`).

## Model

| member | source | states |
|---|---|---|
| OrderHeap.Up | pkg/dex/engine_pure_go.go:298-315 | Restores heap order after an element was appended, keeping the multiset of orders |
| OrderHeap.Down | pkg/dex/engine_pure_go.go:298-323 | Restores heap order below a node, keeping the multiset and everything beyond the prefix |
| OrderHeap.Init | pkg/dex/engine_pure_go.go:213-216 | Any one-sided slice becomes a heap of the same orders |
| OrderHeap.Push | pkg/dex/engine_pure_go.go:53-58 | Adds exactly one order and keeps heap order |
| OrderHeap.Pop | pkg/dex/engine_pure_go.go:317-323 | Takes out exactly one order, and no order is better priced than it |
| OrderHeap.RootIsBest | pkg/dex/engine_pure_go.go:302-310 | In a heap the root comes before every element |
| Engine.OrderBook.Add | pkg/dex/engine_pure_go.go:53-58 | The book keeps tracking its history, now with this order added |
| Engine.OrderBook.MatchBest | pkg/dex/engine_pure_go.go:126-164 | One round either performs an enabled fill and shrinks the book or proves the book uncrossed and leaves it as it was |
| Engine.OrderBook.MatchOrders | pkg/dex/engine_pure_go.go:122-167 | The heap loop terminates, performs a legal greedy run and leaves the book uncrossed; for every order ID the quantities of the matches naming it add up to what the orders with that ID lost, on either side, and all together are the most that could trade at a single price |
| Engine.OrderBook.Cancel | pkg/dex/engine_pure_go.go:211-227 | Removes exactly one order with the ID if the book holds one, and nothing otherwise |
| Engine.Splice | pkg/dex/engine_pure_go.go:212-218 | Cuts the first order with the ID out of a heap and rebuilds a heap of all the others |
| Engine.PureGoEngine.AddOrder | pkg/dex/engine_pure_go.go:42-62 | Every book stays a pair of heaps equal to the plain multisets of its history, extended by this order |
| Engine.PureGoEngine.RunBatchAuction | pkg/dex/engine_pure_go.go:65-119 | The slot's history gains a legal auction that ends uncrossed, and its matches account for the change of the book as above; result and counters are those of its matches; an unknown slot gives an empty result |
| Engine.PureGoEngine.CancelOrder | pkg/dex/engine_pure_go.go:205-231 | Succeeds exactly if some book holds the ID, and then one order with that ID leaves one book |
| Engine.PureGoEngine.GetOrderBook | pkg/dex/engine_pure_go.go:234-258 | Returns the exact price levels, uncrossed whenever the book is, each side beginning with the price of its heap's root |
| Engine.TopLevelIsRoot | pkg/dex/engine_pure_go.go:301-357 | The snapshot of a side begins with the best price, that of its heap's root, and gets strictly worse from there |
| Engine.MatchPricesNondecreasing | pkg/dex/engine_pure_go.go:138-145 | Match prices come out nondecreasing in every legal run |
| Engine.MatchesNameOrders | pkg/dex/engine_pure_go.go:132-145 | Each match names a resting bid with its advertiser and a resting ask, at the ask's price, for no more than either offered |
| Engine.MatchesAccount | pkg/dex/engine_pure_go.go:132-156 | For every complete run and every order ID: the quantities of the matches naming it are what the bids (asks) with that ID lost; all match quantities together are the maximum over all prices of what could trade at that price |
| Engine.AuctionOutcome | pkg/dex/engine_pure_go.go:84-100 | Clearing price is the decayed price of the middle match; winners are a suffix of the matches, at least half of them exactly as stated above; the reported volume is what the run traded from the first winner on |
| Engine.EmptyAuction | pkg/dex/engine_pure_go.go:126-170 | An auction matches nothing if and only if the book does not cross; it then reports zeros and leaves the book as it was |
| Matching.Conservation | pkg/dex/engine_pure_go.go:122-167 | For every selection of orders by anything but quantity, on each side: start = remaining + filled |
| Matching.RunShrinksBook | pkg/dex/engine_pure_go.go:126-164 | Every fill takes at least one order out of the book |
| Matching.BestFirst | pkg/dex/engine_pure_go.go:126-137 | Matched bid limits never rise, matched ask prices never fall, every pair crosses |
| Matching.FillsNameOrders | pkg/dex/engine_pure_go.go:132-150 | Each fill is between a crossing bid and ask of the starting book, within what both offered |
| Matching.GreedyRemainder | pkg/dex/engine_pure_go.go:122-167 | What a run leaves at or beyond any price is what its volume leaves of it, on both sides |
| Matching.GreedyIsOptimal | pkg/dex/engine_pure_go.go:122-167 | The matched volume is the maximum over all prices of the smaller of demand at or above and supply at or below |
| Matching.TieBreakingDoesNotMatter | pkg/dex/engine_pure_go.go:122-167 | Any two complete runs of one book trade the same volume and leave the same quantity at every price on both sides |
| EngineAgreement.MatchBoth | pkg/dex/adx_matching_engine.cpp:383-417 | The Go heap loop and the C++ vector loop trade the same volume and leave the same quantity at every price level |
| History.RunConservation | pkg/dex/engine_pure_go.go:42-231 | Over every run of adds, auctions and cancels: all quantity ever added is resting, filled or cancelled |
| Clearing.CalculateClearingPrice | pkg/dex/engine_pure_go.go:170-184 | The price at position n/2 of the sorted match prices; zero without matches |
| Clearing.MedianIsMiddleMatch | pkg/dex/engine_pure_go.go:170-184 | For matches in price order sorting changes nothing: the median is the price of the middle match, and only that |
| Clearing.SelectWinners | pkg/dex/engine_pure_go.go:92-100 | Exactly the matches at or above the clearing price, in order, and their volume as a wrapping uint64 |
| Clearing.WinnersAreSuffix | pkg/dex/engine_pure_go.go:92-100 | Winners of matches in price order are the suffix from the first match at the clearing price |
| Clearing.AtLeastHalfWin | pkg/dex/engine_pure_go.go:86-100 | The suffix starts at or before the middle match if and only if the median is nonnegative or there is no decay |
| Clearing.NegativePriceNoWinner | pkg/dex/engine_pure_go.go:86-100 | A negative price that decays upwards leaves no winner |
| PriceLevels.AggregatePriceLevels | pkg/dex/engine_pure_go.go:326-357 | One level for each resting price and no other, with its exact quantity (wrapping) and count, best price first |
| PriceLevels.SnapshotUncrossed | pkg/dex/engine_pure_go.go:234-258 | The snapshot of an uncrossed book is uncrossed |
| VectorBook.MatchFronts | pkg/dex/adx_matching_engine.cpp:383-417 | The vector loop performs a legal greedy run and leaves the vectors sorted and uncrossed |
| VectorBook.LimitBooks.AddLimitOrder | pkg/dex/adx_matching_engine.cpp:329-350 | Enters the order into its sorted vector, touches no other slot, and matches until uncrossed exactly for market orders |
| VectorBook.LimitBooks.TryImmediateMatch | pkg/dex/adx_matching_engine.cpp:383-417 | A legal greedy run on one slot that ends uncrossed; other slots unchanged |
| Blocklace.AddHeaderValid | blocklace/dag.go:95-151 | Adding any header keeps every DAG invariant, and no vertex ever leaves or changes header, author or round |
| Blocklace.AddHeaderExactly | blocklace/dag.go:95-171 | A header is held afterwards if and only if accepted; a new one is refused for an unknown predecessor, or else if and only if its author has a vertex of the same round, which flags that author alone; an accepted new one is delivered last, at the round its predecessors give |
| Blocklace.ReachedValid | blocklace/dag.go:64-245 | In every reachable DAG: the sequence lists each vertex once, predecessors first; all are delivered; successors invert predecessors; tips are the non-genesis vertices without successors; height is the maximum round; one vertex per author and round |
| BlocklaceRounds.RoundIsLongestChain | blocklace/dag.go:188-201 | A vertex's round is the length of its longest predecessor chain down to a vertex without predecessors, and only that |
| BlocklaceRounds.RoundsAgree | blocklace/dag.go:188-201 | Two DAGs with compatible headers give every shared header the same round |
| BlocklaceRounds.SameHeadersSameView | blocklace/dag.go:204-232 | DAGs with the same headers have the same tips, width and height |
| BlocklaceRounds.BelowSomeTip | blocklace/dag.go:204-214 | Every non-genesis vertex lies on a chain down from some tip |
| BlocklaceOrder.SequenceIsArrangement | blocklace/dag.go:217-256 | The sequence of every reachable DAG lists its headers from genesis on, each once and predecessors first |
| BlocklaceOrder.ArrangementReached | blocklace/dag.go:217-256 | Every such arrangement of the headers of a reachable DAG is the sequence of a replica that received them in that order |
| BlocklaceOrder.DeliveryOrderExactly | blocklace/dag.go:217-256 | All replicas that hold the headers deliver one before another if and only if a chain of predecessors leads down to it |
| BlocklaceOrder.ConcurrentHeaders | blocklace/dag.go:38 | Two replicas with the same headers and different sequences |
| BlocklaceDag.DAG.constructor | blocklace/dag.go:64-92 | A new DAG is valid and holds genesis alone, delivered and not a tip |
| BlocklaceDag.DAG.AddHeader | blocklace/dag.go:95-151 | Computes exactly the specified state and outcome for duplicates, missing predecessors, equivocations and new vertices, and keeps the DAG valid |
| BlocklaceDag.DAG.CalculateRound | blocklace/dag.go:188-201 | Zero without predecessors, otherwise one more than the largest predecessor round |
| BlocklaceDag.DAG.DetectEquivocation | blocklace/dag.go:154-171 | Finds an equivocation exactly if the author has another vertex at the round, and tracks the vertex otherwise |
| BlocklaceDag.DAG.LinkPredecessors | blocklace/dag.go:132-135 | Each predecessor gains the vertex as successor as often as it is named |
| BlocklaceDag.DAG.UpdateTips | blocklace/dag.go:204-214 | The vertex becomes a tip and its predecessors cease to be tips |
| BlocklaceDag.DAG.TryDeliver | blocklace/dag.go:217-245 | In any graph the recursion terminates and the delivered sequence stays causal; a ready vertex without successors is delivered alone |
| BlocklaceDag.DAG.GetTips | blocklace/dag.go:258-267 | Lists every tip once |
| BlocklaceDag.CordialMiner.ProposeHeader | blocklace/dag.go:330-368 | Without interference, proposes on exactly the current tips at the current round and performs the protocol's steps of a proposal in a row; the round rises by one exactly if the header was added |
| BlocklaceDag.CordialMiner.ReceiveHeader | blocklace/dag.go:371-397 | Without interference, performs the protocol's steps of a receipt in a row; ignores flagged senders; a new header that is accepted lifts the round to its own if that is higher |
| CordialMiners.NoFalseAlarm | blocklace/dag.go:154-171 | A header sent by a miner never looks like an equivocation to another replica |
| CordialMiners.StepInv | blocklace/dag.go:330-397 | Every protocol step keeps all replicas valid, all vertices sent by their authors, all flags justified and every draft above the headers its author had when the tips were read |
| CordialMiners.OthersNeverFlag | blocklace/dag.go:371-397 | In every run, a replica flags no other miner, and whoever is flagged, by itself or another, made two different headers of one round |
| CordialMiners.ReplicasAgree | blocklace/dag.go:188-232 | In every run, replicas agree on rounds of shared headers, and on tips and height when they hold the same headers |
| CordialMiners.TipsCover | blocklace/dag.go:331-337 | The tips of a DAG come after every vertex of every author |
| CordialMiners.ProposalRoundExceeds | blocklace/dag.go:330-352 | A proposal gets a round above those of all headers that its author had when the tips were read |
| CordialMiners.ProposalOutcome | blocklace/dag.go:348-352 | A proposal is refused and its author flagged exactly if the author added a header of the same round since the tips were read; otherwise it is accepted |
| CordialMiners.OverlapExactly | blocklace/dag.go:330-352 | Of two overlapping proposals the first is accepted, and the second is refused and the miner flags itself if and only if their rounds are the same |
| CordialMiners.SelfFlagExactly | blocklace/dag.go:330-397 | In every run, a miner flags itself if and only if one of its proposals had the round of a header that it added after reading the tips for it |
| MinerRuns.OverlapFlagsItself | blocklace/dag.go:330-352 | A run in which a miner begins two proposals before adding the first and flags itself |
| CordialMiners.HonestNeverFlagged | blocklace/dag.go:330-397 | In every run without overlapping proposals of one miner, no replica flags any miner, whatever arrives between reading tips and adding the header |
| CordialMiners.ProposalsRise | blocklace/dag.go:330-352 | In such a run every proposal is accepted, at a round above those of all earlier headers of its author |
| MinerHeights.HeightRepeatsExactly | blocklace/dag.go:340-359 | In every run, two headers of a miner share a height if and only if some accepted proposal of it has the height of a header it had sent before |
| MinerHeights.HeightRepeatCause | blocklace/dag.go:340-393 | In every run with such headers, one was built while another proposal of that height was under way, or some write lowered the round to that height or below |
| MinerHeights.HeightsNeverRepeat | blocklace/dag.go:340-393 | In every run in which no miner has two proposals or pending writes of a caught-up round under way, no miner gives two headers the same height |
| MinerRuns.OverlapRepeatsHeight | blocklace/dag.go:330-366 | A run in which two overlapping proposals are both accepted and sent with the same height, without a flag |
| MinerRuns.CatchUpRepeatsHeight | blocklace/dag.go:387-393 | A run without overlapping proposals in which a late write of a caught-up round makes a height repeat |
| Fermat.FermatLittle | pkg/fhe/privacy.go:86-89 | Fermat's little theorem, which the exponent lcm(p - 1, q - 1) relies on |
| Paillier.ModInverseMeaning | pkg/fhe/privacy.go:94 | The inverse exists exactly for coprime numbers and is one |
| Paillier.SmallestKey | pkg/fhe/privacy.go:76-81 | The assumptions on the primes can be met |
| Paillier.LambdaCoprime | pkg/fhe/privacy.go:86-94 | For odd primes within a factor of two, equal ones included, lambda is coprime to n, which the code does not check |
| Paillier.CarmichaelPower | pkg/fhe/privacy.go:86-89 | r^lambda = 1 mod n for every r coprime to n, if the primes differ |
| Paillier.GeneratedKey | pkg/fhe/privacy.go:71-112 | Key generation succeeds for all such primes, also if one is drawn twice, with mu the inverse of lambda mod n |
| Paillier.LRecovers | pkg/fhe/privacy.go:268-272 | L reads x mod n off 1 + nx modulo n^2 |
| Paillier.EncryptCarries | pkg/fhe/privacy.go:159-164 | Every plaintext of either sign encrypts under every mask that carries nothing to a ciphertext that carries it |
| Paillier.DecryptCarried | pkg/fhe/privacy.go:218-228 | Decryption returns the carried plaintext modulo n |
| Paillier.ExpCarries | pkg/fhe/privacy.go:203-215 | Raising a ciphertext to a power of either sign always succeeds and multiplies what it carries |
| Paillier.CoprimeVanishes | pkg/fhe/privacy.go:159-164 | For different primes every mask coprime to n carries nothing |
| PaillierMasks.MaskExactly | pkg/fhe/privacy.go:159-164 | For different primes, encryption under a mask and decryption return every plaintext below n if and only if the mask shares no factor with n |
| PaillierMasks.MaskExactlyTwice | pkg/fhe/privacy.go:76-94 | With one prime p twice, the same if and only if the mask shares no factor with n and its (p - 1)th power is 1 modulo p^2 |
| PaillierMasks.WorksIsVanishes | pkg/fhe/privacy.go:159-164 | For every key, a mask returns every plaintext if and only if it carries nothing |
| PaillierMasks.MaskCollision | pkg/fhe/privacy.go:159-164 | Under a mask divisible by one prime, zero and the other prime have the same ciphertext |
| PaillierMasks.KeyExactly | pkg/fhe/privacy.go:76-94 | A key works under all masks coprime to n if and only if its primes differ |
| PaillierMasks.EqualPrimesFail | pkg/fhe/privacy.go:76-94 | With one prime p twice, the mask p + 1 is coprime to n and loses a plaintext |
| PrivateAuction.BidRoundTrip | pkg/fhe/privacy.go:149-174 | Under every mask that carries nothing, decrypting an encrypted bid returns its cents modulo n, and the cents themselves if and only if they are nonnegative; a bid within the range of 64 bits comes back to within a cent |
| PrivateAuction.CentsMeaning | pkg/fhe/privacy.go:150-152 | The cents are the whole cents of the amount, towards zero, while they fit 64 bits, and wrap by a multiple of 2^64 beyond |
| PrivateAuction.AddCarries | pkg/fhe/privacy.go:177-200 | Adding succeeds exactly for equal contexts and carries the sum |
| PrivateAuction.BidsAddUp | pkg/fhe/privacy.go:149-200 | Any two encrypted bids can be added, and the sum decrypts to the sum of their cents modulo n |
| PrivateAuction.ScaleCarries | pkg/fhe/privacy.go:203-215 | Multiplying by any constant keeps the context and carries the multiple |
| PrivateAuction.Homomorphism | pkg/fhe/privacy.go:177-228 | Any nesting of encrypted sums and multiples, under masks that carry nothing, decrypts to the same sums and multiples of the plaintexts mod n |
| PrivateAuction.PrivacyPreservingAuction.SubmitBid | pkg/fhe/privacy.go:333-351 | Appends a ciphertext under any mask, refusing only amounts of n and above; it carries the cents if the mask carries nothing |
| PrivateAuction.PrivacyPreservingAuction.DetermineWinner | pkg/fhe/privacy.go:354-380 | Picks the first bidder with the largest decrypted bid, fails exactly without bids; under masks that carry nothing the decrypted bids are the cents modulo n, and among amounts that are not negative and fit 64 bits none exceeds the winner's by a cent or more, and no earlier one has as many whole cents |
| PrivateAuction.LargestCentsBidMost | pkg/fhe/privacy.go:150-157 | The first largest decrypted bid belongs to a bidder whom nobody outbid by a cent or more |
| PrivateAuction.WinnerHasLargestCents | pkg/fhe/privacy.go:354-380 | That bidder has the largest cents if and only if the bids are all nonnegative or all negative |
| PrivateAuction.NegativeBidWins | pkg/fhe/privacy.go:354-380 | A bid of minus one cent beats a bid of five cents |
| BigBytes.BytesRoundTrip | pkg/fhe/privacy.go:183-184 | Ciphertexts survive conversion to bytes and back |
| BigBytes.KeyRoundTrip | pkg/fhe/privacy.go:383-404 | Exported keys with generator n + 1 are imported unchanged, although the lengths are not recorded |
| BigBytes.KeyRoundTripExactly | pkg/fhe/privacy.go:383-404 | For arbitrary numbers this holds if and only if the second takes as many bytes as the first, or one more |
| Escrow.StepValid | contracts/EscrowManager.sol:62-229 | Every call, and every other use of the token, keeps budgets, reservations, balances and solvency in order |
| Escrow.RunSolvency | contracts/EscrowManager.sol:62-219 | Over every run: AUSD held = available + reserved + publisher balances + unsolicited AUSD; per campaign total = available + reserved + spent and reserved = unsettled reservations; nothing is negative |
| Escrow.SurplusIsUnsolicited | contracts/EscrowManager.sol:62-219 | The surplus over liabilities is exactly what was there before and what was sent directly |
| Escrow.Solvent | contracts/EscrowManager.sol:192-219 | The contract can always pay any publisher and any campaign |
| Escrow.ReservationCovered | contracts/EscrowManager.sol:151-183 | An open reservation is covered by its campaign's reserved budget, so no subtraction underflows |
| Escrow.SettleCreditsAll | contracts/EscrowManager.sol:146-164 | Settling credits the publisher with exactly the reserved amount whatever the rounding |
| Escrow.PhaseStep | contracts/EscrowManager.sol:99-187 | Only a reserve call opens, only a settle call settles and only a release call clears a reservation |
| Escrow.ReservationLifecycle | contracts/EscrowManager.sol:99-187 | Over every run: creations = settlements + releases + (one if open), and an ID is settled at most once |
| Escrow.SettleOrRelease | contracts/EscrowManager.sol:139-177 | While open, settling and releasing are never both possible; one of them is, except while the payout product overflows before expiry |
| Escrow.HugeReservationIsStuck | contracts/EscrowManager.sol:147 | That overflow can be reached |
| Escrow.ReservationWindow | contracts/EscrowManager.sol:119-177 | A new reservation can be settled exactly until now + ttl if its payout product does not overflow, and released exactly after |
| Escrow.PausedForGood | contracts/EscrowManager.sol:72-80 | A paused campaign takes no reservation in any later run, not even after new funding |
| Escrow.PauseTakesHold | contracts/EscrowManager.sol:225-229 | An accepted pause leaves the campaign paused |
| Escrow.TermsForGood | contracts/EscrowManager.sol:70-80 | Owner and holdback of a campaign never change after its first funding |
| EscrowMoney.OwnerActs | contracts/EscrowManager.sol:70-229 | A campaign's total falls only by a withdrawal, rises only by a funding and it is paused only by a pause, each sent by its advertiser |
| EscrowMoney.TotalIsTheAdvertisers | contracts/EscrowManager.sol:62-219 | Over every run, a campaign's total is what its advertiser paid in less what the advertiser took out; nobody else ever pays in or takes out anything |
| EscrowMoney.TermsOfFirstFunding | contracts/EscrowManager.sol:70-80 | Over every run, a campaign exists exactly if it was funded, on the terms of its first funding, and is active exactly until its first accepted pause |
| EscrowMoney.OnlyOwnSpending | contracts/EscrowManager.sol:83 | An address loses AUSD only by transactions of its own, a funding only with its approval |
| EscrowMoney.RecordsTheCall | contracts/EscrowManager.sol:106-123 | Over every run, a reservation names the campaign, publisher, amount and expiry of the last accepted call that made it, at most ten seconds after that call |
| EscrowMoney.ReceivedWasEarned | contracts/EscrowManager.sol:135-219 | Over every run and for every address: what it received from the contract, by the token ledger, plus the balance it can still withdraw is what was settled for reservations whose calls named it plus what it took back from campaigns of its own |
| EscrowMoney.CanAlwaysWithdraw | contracts/EscrowManager.sol:192-219 | A publisher can always withdraw all earnings and an advertiser all of the available budget, and gets exactly that |
| EscrowMoney.WhoCanFund | contracts/EscrowManager.sol:62-89 | Over every run, a funding is accepted if and only if it comes from the first funder, or from anybody before, with a positive amount held and approved and a holdback of at most a fifth, and the total fits 256 bits |
| EscrowMoney.WhoCanReserve | contracts/EscrowManager.sol:99-128 | Over every run, a reservation is accepted if and only if it is positive and within the available budget of a campaign funded and never paused, for at most ten seconds, under an ID neither open nor settled |
| EscrowContract.EscrowManager.FundCampaign | contracts/EscrowManager.sol:62-89 | Reverts or has exactly the specified effect, and keeps the invariant |
| EscrowContract.EscrowManager.ReserveBudget | contracts/EscrowManager.sol:99-128 | Reverts or has exactly the specified effect, and keeps the invariant |
| EscrowContract.EscrowManager.SettleReceipt | contracts/EscrowManager.sol:135-167 | Reverts or has exactly the specified effect, and keeps the invariant |
| EscrowContract.EscrowManager.ReleaseExpiredReservation | contracts/EscrowManager.sol:173-187 | Reverts or has exactly the specified effect, and keeps the invariant |
| EscrowContract.EscrowManager.WithdrawPublisherEarnings | contracts/EscrowManager.sol:192-200 | Reverts or has exactly the specified effect, and keeps the invariant |
| EscrowContract.EscrowManager.WithdrawCampaignBudget | contracts/EscrowManager.sol:206-219 | Reverts or has exactly the specified effect, and keeps the invariant |
| EscrowContract.EscrowManager.PauseCampaign | contracts/EscrowManager.sol:225-229 | Reverts or has exactly the specified effect, and keeps the invariant |
| GoEscrow.TransferConserves | pkg/dex/engine_old.go:21-44 | Transfers, also to oneself, conserve the supply and move exactly the amount |
| GoEscrow.FundKeeps | pkg/chainvm/escrow_rpc.go:73-117 | Funding keeps the invariant: total = available + reserved + spent + deal escrow, reserved = unsettled reservations, total spent = publisher balances + pending releases, nothing negative; the totals outgrow the escrow's AUSD exactly by self-funding |
| GoEscrow.ReserveKeeps | pkg/chainvm/escrow_rpc.go:120-166 | Reserving keeps the same invariant |
| GoEscrow.SettleKeeps | pkg/chainvm/escrow_rpc.go:169-221 | Settling keeps the same invariant, and the reservation was never paid before |
| GoEscrow.SettlementShares | pkg/chainvm/escrow_rpc.go:190-206 | The campaign's basis points of the amount, at most a fifth, are scheduled for 48 hours later, and exactly the rest is paid at once |
| GoEscrow.SettlementWindow | pkg/chainvm/escrow_rpc.go:143-185 | A new reservation can be settled exactly until it expires, and never twice |
| GoEscrow.DealKeeps | pkg/chainvm/escrow_rpc.go:224-261 | Guaranteed deals keep the same invariant, even with a negative escrow |
| GoEscrow.DealEscrowNegative | pkg/chainvm/escrow_rpc.go:230-233 | The escrow of a deal is negative if and only if none of count (as int64), price and one plus penalty rate is zero and an odd number of them is negative |
| GoEscrow.HugeDealIsNegative | pkg/chainvm/escrow_rpc.go:231 | A count of 2^63 at a positive price has a negative escrow |
| GoEscrow.DealPrice | pkg/chainvm/escrow_rpc.go:230-233 | A thousand impressions cost the price per thousand, counts add up while they fit an int64, and a penalty rate adds that share of the cost |
| GoEscrow.DealLocks | pkg/chainvm/escrow_rpc.go:230-250 | A deal is accepted if and only if the campaign has a thousandth of count times price with the penalty on top, and lowers the available budget by exactly that |
| SettlementRuns.RunBudgets | pkg/chainvm/escrow_rpc.go:73-261 | Over every run: accepted fundings = total = available + reserved + spent + escrow of accepted deals; reserved = unsettled reservations; total spent = publisher balances + pending releases; nothing negative |
| SettlementRuns.WithinTotal | pkg/chainvm/escrow_rpc.go:230-252 | Over every run, a campaign has more in use than was paid into it if and only if its accepted deals add up to a negative escrow |
| SettlementRuns.DealExceedsFunding | pkg/chainvm/escrow_rpc.go:230-252 | A run in which a deal for 2^63 impressions leaves more available than was ever paid in |
| SettlementRuns.BackedByAUSD | pkg/chainvm/escrow_rpc.go:100-107 | Over every run, the escrow account gains the sum of all totals if and only if no accepted funding came from that account itself, and less otherwise |
| SettlementRuns.EscrowFundsItself | pkg/chainvm/escrow_rpc.go:100-107 | A run with an accepted funding from the escrow account, whose AUSD does not grow |
| SettlementRuns.PaidAtMostOnce | pkg/settlement/ausd_settlement.go:80-205 | Over every run, under any interleaving, a reservation is paid at most once, by exactly one call if at all: a settlement or proof that names it or a batch holding such a proof |
| SettlementRuns.PayoutsCountSettled | pkg/settlement/ausd_settlement.go:199-202 | Over every run, RealTimePayouts is the number of settled reservations less the settlements accepted by the escrow directly |
| SettlementRuns.DirectSettlementIsNotCounted | pkg/chainvm/escrow_rpc.go:169-221 | A run in which a reservation is settled by the escrow directly and RealTimePayouts stays zero |
| SettlementRuns.PaidOnRequest | pkg/settlement/ausd_settlement.go:117-177 | Over every run, what is paid was asked for by a settlement, or by a valid proof of sufficient viewability submitted in the run |
| SettlementRuns.TriedBucketsPays | pkg/settlement/ausd_settlement.go:147-177 | A batch pays exactly the reservations that a held proof entitled to payment when it was tried, in whatever order the map is iterated, and counts one payout each |
| SettlementMoney.EarningsAndLedger | pkg/chainvm/escrow_rpc.go:73-221 | Over every run, a publisher's balance plus the releases to come to it are the amounts settled for it, and an account has lost exactly what it paid into campaigns, all of which the escrow account got |
| SettlementMoney.ReservationIsTheCall | pkg/chainvm/escrow_rpc.go:128-158 | Over every run, a reservation is on record if and only if exactly one call made it, with the campaign, publisher, amount and expiry that call asked for; a won impression has two seconds |
| SettlementMoney.CampaignIsTheFunders | pkg/chainvm/escrow_rpc.go:82-111 | Over every run, a campaign exists if and only if it was funded, always by the same advertiser, and it is active for good |
| SettlementMoney.HoldbackOfFirstFunding | pkg/chainvm/escrow_rpc.go:82-96 | Over every run, the first accepted funding of a campaign settles its holdback |
| SettlementMoney.WhoCanFund | pkg/chainvm/escrow_rpc.go:75-103 | Over every run, a funding is accepted if and only if it is positive, on the advertiser's account, with a holdback of at most a fifth, and no other advertiser funded the campaign |
| SettlementMoney.WhoCanReserve | pkg/chainvm/escrow_rpc.go:121-140 | Over every run, a reservation is accepted if and only if it is positive and within the available budget of a funded campaign, for at most ten seconds, under an ID no call reserved before |
| SettlementMoney.WindowIsQuarter | pkg/settlement/ausd_settlement.go:308-312 | Two proofs share a window if and only if their timestamps lie in the same quarter of an hour |
| SettlementMoney.SecondProofPays | pkg/settlement/ausd_settlement.go:117-144 | The second of two proofs pays its reservation at once if and only if both are in order, in the same quarter of an hour, its score is 70 or more and the reservation is open and not expired |
| Settlement.EscrowManager.TransferAUSD | pkg/dex/engine_old.go:21-44 | Refuses or moves the amount; the destination is read after the debit |
| Settlement.EscrowManager.FundCampaign | pkg/chainvm/escrow_rpc.go:73-117 | Fails without effect or has exactly the specified effect, and keeps the invariant |
| Settlement.EscrowManager.ReserveBudget | pkg/chainvm/escrow_rpc.go:120-166 | Fails without effect or has exactly the specified effect, and keeps the invariant |
| Settlement.EscrowManager.SettleReceipt | pkg/chainvm/escrow_rpc.go:169-221 | Pays a reservation that was never paid before, or fails without effect; keeps the invariant |
| Settlement.EscrowManager.CreatePGDeal | pkg/chainvm/escrow_rpc.go:224-261 | Fails without effect or locks exactly the deal's escrow, a thousandth of count times price with the penalty on top for counts that fit an int64; keeps the invariant |
| Settlement.AUSDSettlement.ProcessImpressionWin | pkg/settlement/ausd_settlement.go:80-114 | Reserves the price for two seconds or fails without effect |
| Settlement.AUSDSettlement.SettleImpression | pkg/settlement/ausd_settlement.go:180-205 | Settles exactly payable proofs of sufficient viewability, and counts one payout for each |
| Settlement.AUSDSettlement.SubmitDeliveryProof | pkg/settlement/ausd_settlement.go:117-144 | Records every valid proof, and pays at once if and only if it is valid, its window held one before and it is payable; performs the specified call |
| Settlement.AUSDSettlement.BatchSettlement | pkg/settlement/ausd_settlement.go:147-177 | Clears all proofs, pays a reservation if and only if a held proof entitled it to payment when it was tried, with a clock reading for each, and leaves none to pay; performs the specified call |
| Auctions.DecryptBid | auction/auction.go:154-173 | The big-endian value of the first eight bytes modulo 10000; fails exactly for shorter commitments |
| Auctions.Auction.SubmitBid | auction/auction.go:67-83 | Appends the bid exactly if it is in time and not a range proof without commitment |
| Auctions.Auction.RunAuction | auction/auction.go:86-143 | Fails exactly without eligible bids; otherwise an outcome of the second-price mechanism, stored as the outcome |
| Auctions.RunSecondPriceAuction | tee/enclave.go:284-328 | The one-pass scan computes an outcome of the same mechanism; zeros without eligible bids |
| Auctions.OutcomeUnique | auction/auction.go:112-123 | Winning value and clearing price do not depend on ties, so both implementations agree on them |
| Auctions.PriceBetweenReserveAndBid | auction/auction.go:117-123 | The price lies between the reserve and the winning bid |
| Auctions.TruthfulnessDominates | auction/auction.go:86-143 | Bidding one's value is weakly dominant for a single-bid bidder, for all other bids, positions and tie-breaks |
| AdMM.DecayWithinWindow | pkg/chainvm/adslot_rpc.go:427-446 | Within the delivery window a rate in [0, 1] gives a factor in [0, 1] |
| AdMM.DecayFalls | pkg/chainvm/adslot_rpc.go:427-446 | The factor starts at 1, ends at 1 - rate and never rises within the window |
| AdMM.DecayIsLinear | pkg/chainvm/adslot_rpc.go:427-446 | Up to the end of the window the factor has lost the share of the rate that has passed of the window; after the end it is zero, and in a window of no length one |
| AdMM.QuoteFollowsTime | pkg/chainvm/adslot_rpc.go:404-446 | What a swap pays at any moment: up to the end the product of the reserves shrinks in proportion to the time passed, after the end a swap takes the whole other reserve, in a window of no length the product stays |
| AdMM.PriceIsRatio | pkg/chainvm/adslot_rpc.go:300-303 | An accepted swap leaves the price at AUSD over slots while slots are left, and liquidity tokens and decay rate as they were |
| AdMM.SellKeepsReserves | pkg/chainvm/adslot_rpc.go:414-418 | Selling any amount of slots makes the product, with slots as int64 reads them, exactly decay times the old one; the AUSD reserve stays nonnegative if and only if decay times slots before times slots after is; fails only if the slots wrap to zero |
| AdMM.BuyKeepsReserves | pkg/chainvm/adslot_rpc.go:419-424 | Buying slots takes out whole slots only: the product is at least decay times the old one and above it by less than one slot; the slot reserve wraps if and only if the quotient aimed for is -1 or less |
| AdMM.SwapKeepsProduct | pkg/chainvm/adslot_rpc.go:276-314 | For every pool, amount and decay factor, an accepted swap keeps the AUSD reserve nonnegative, and the product of the reserves as read at least decay times the old one, if and only if it does not overflow |
| AdMM.WindowSwapKeepsProduct | pkg/chainvm/adslot_rpc.go:404-446 | The same for every moment within the delivery window and every decay rate in [0, 1], whose factor is in [0, 1] |
| AdMM.InRangeSwap | pkg/chainvm/adslot_rpc.go:276-314 | In a pool of less than 2^63 slots, every swap keeps reserves and product if and only if its amount is not too large, a test on slots, amount and AUSD alone |
| AdMM.HugeSaleOverflows | pkg/chainvm/adslot_rpc.go:414-418 | Selling 2^63 slots makes the AUSD reserve negative |
| AdMM.NegativeDecay | pkg/chainvm/adslot_rpc.go:440-445 | A rate of 2 makes the factor -1; selling then makes the AUSD reserve negative and buying wraps the slot reserve |
| AdMM.RunKeepsProduct | pkg/chainvm/adslot_rpc.go:276-314 | Over every run of swaps from every pool, the AUSD reserve is nonnegative if and only if no swap overflowed, and then the pool keeps at least the product of the decay factors of the accepted swaps |
| AdMM.NoFreeAUSD | pkg/chainvm/adslot_rpc.go:276-314 | Without decay, a run from a pool of less than 2^63 slots that leaves no more slots in it leaves no less AUSD if and only if no swap overflowed |
| AdMM.NeverLeaksExactly | pkg/chainvm/adslot_rpc.go:276-314 | No run without decay and overflow leaves no more slots and less AUSD if and only if the pool has less than 2^63 slots, or just that many and at most one AUSD |
| AdMM.HugePoolLeaks | pkg/chainvm/adslot_rpc.go:414-418 | In every pool of more than 2^63 slots a sale takes out AUSD and leaves fewer slots |
| AdMM.RoundTripNeverGains | pkg/chainvm/adslot_rpc.go:404-425 | Without decay, buying slots for any amount and selling the whole slots back never returns more AUSD than was paid |
| AdMM.HugeRoundTripGains | pkg/chainvm/adslot_rpc.go:404-425 | In a pool of 2^63 slots a round trip returns three times the amount paid |
| AdMM.AdSlotManager.CreatePool | pkg/chainvm/adslot_rpc.go:234-273 | Stores one pool per known slot, with its liquidity tokens, even if paying for it fails |
| AdMM.AdSlotManager.SwapAdMM | pkg/chainvm/adslot_rpc.go:276-314 | Performs the swap at the decay of the moment on one pool and touches no other; after the window it pays out the whole other reserve; refusals change nothing |
| RateLimiter.WindowBound | pkg/rtb/openrtb.go:548-568 | From any bucket, requests in a window of length T are allowed at most max times and once more for every refill interval begun in T, hence at most max + T / refill + 1 times |
| RateLimiter.RunWindowBound | pkg/rtb/openrtb.go:548-568 | The same for every window inside every run |
| RateLimiter.WindowBoundIsTight | pkg/rtb/openrtb.go:548-568 | The first of these bounds is attained for every maximum, refill interval and window |
| RateLimiter.PacedRequestsPass | pkg/rtb/openrtb.go:548-568 | Requests at least one refill interval apart are all allowed |
| RateLimiter.BurstPasses | pkg/rtb/openrtb.go:548-568 | Of k requests at one moment exactly min(k, tokens) pass, with all tokens that the pause before earned, up to the maximum; they take just these, and the next interval starts at once if a refill was due |
| RateLimiter.Limiter.Allow | pkg/rtb/openrtb.go:548-568 | Computes the specified bucket and answer and keeps the tokens between zero and the maximum |

## Left out

- Orders are values: an order object that a caller adds twice or changes while it rests is not modelled.
- Rounds and the payout counter are unbounded; the source's are uint64 and would wrap.
- PrivateAuction.BidRoundTrip: stated for masks that carry nothing, because every other mask loses some plaintext (`PaillierMasks.WorksIsVanishes`).
- PrivateAuction.Homomorphism: stated for such masks too; under others a sum or multiple can still come out right by chance.
- Paillier.GeneratedKey: primes are odd and within a factor of two of each other, as the two primes of one bit length are that the code draws.
- AdMM.RoundTripNeverGains: stated for pools of less than 2^63 slots, because it fails for some others (`AdMM.HugeRoundTripGains`); which of those is not settled.
- AdMM.AdSlotManager.CreatePool: the square root that gives the liquidity tokens is a parameter.
- Settlement: transfers of AUSD other than fundings, Merkle roots, hashes, tracking pixels and metrics other than the payout counter.
- Auctions: proofs of correct execution and creative data, which do not affect the outcome.
- Nonces and commitments of encrypted bids, and base64 around exported keys.
- Engine metrics, latency and logging; `GetSequence`, `IsByzantine` and other plain getters.
- Encrypted user profiles and secure matching, whose code is a placeholder.
- The C++ engine's commit-reveal, AMM and flash-cover paths, its batch auction, and the GPU, Metal and cgo engines.
- Zero-knowledge proofs, HPKE, TEE attestation, data availability, frequency capping, budgets, analytics, storage, bid collection, VAST, SDKs and commands: placeholders, thin layers over libraries, or one-step counters.

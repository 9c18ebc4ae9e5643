# Verified models of the index distribution, valuation and leverage code

A Dafny project that models the computing parts of the Index Coop and Index Protocol repositories and proves what they
are relied on for. `dafny verify dfyconfig.toml` checks all of it.

- **Merkle distribution** (`Ordering`, `Bytes`, `MerkleTree`, `BalanceTree`, `ParseBalanceMap`, `MerkleDistributor`):
  from a list of addresses and earnings to a root, a total and a claim per address; the check of a claim; and the
  contract that pays claims out. The hash is any function from byte strings to 32 bytes, passed as a parameter. No
  injectivity is assumed, since no such function is injective. Soundness names the collision it would take: a byte
  string hashed by the tree and a different one hashed by the verifier with the same hash. Both come from finite,
  known collections, so the statement is not satisfied by collisions that merely exist somewhere.
- **Rounded economics** (`NavIssuance`, `FlexibleLeverage`, `StreamingFee`): chains of floors and ceilings in fixed-point
  arithmetic. Every guarantee is an inequality across all the roundings, often over whole runs, and stated from both
  sides where a one-sided bound could be met by paying out nothing.
- **Loops with a specification** (`MathUtils`, `ExchangeIssuance`, `PathEncoding`): the integer square root and the pool
  target built on it, exact-ETH issuance, and swap-path encoding with a reader for the format.
- **Kernel** (`FixedPoint`): library integers divide truncating toward zero, so `TruncDiv` is written out from counting how
  often a divisor fits; `%` stands only for the library's remainder, which is Euclidean too. `U` below is the precise
  unit. The source fixes it at 10^18, which is the default value of `PRECISE_UNIT` here; the proofs use only that it is
  positive, so they hold for any scale.

An operation that throws in the source returns `None` or `Failure` here. Results that hold for the code as written
rather than as named or commented:

- The index-coop `preciseDivCeilInt` is wrong for negative divisors on a family of inputs, given exactly; so is
  `preciseMulCeil` on negative products and `preciseDivCeil` on operands of mixed or negative sign.
- The index-coop `divDown` throws for a negative divisor and a positive dividend, because the library's remainder
  refuses negative moduli.
- The leaf is hashed from the packed 84-byte encoding, although the comment at
  `index-coop-smart-contracts/utils/merkleUtils/balanceTree.ts:30` says `abi.encode`. ("Non-standard Packed Mode" in the
  Solidity Contract ABI Specification.)
- A delever can leave the recomputed limit up to two units (one for V3) below the debt. Inputs that reach both bounds
  are given, and so is the exact condition, in terms of what is known before the call, under which the debt stays
  covered.
- A redemption that the position cannot cover is not refused; it writes back a debt rounded down. When the new unit then
  claims more than what is left is given exactly, with an input.
- Soundness of the claim check holds for proof items of every length but 52 bytes. The contract only takes 32-byte items.

Domains: fees and premiums lie between 0 and `U`, with the two fees together at most `U`; the leverage settings are those
the strategy contract validates (0 < min <= target <= max, 0 < speed <= U); supplies, prices and balances are
non-negative. Starting leverage ratios, dividends, divisors and the units a fee rescales range over all integers.

## Model

| member | source | states |
|---|---|---|
| `Balances.AcceptedIsEntry` | index-coop-smart-contracts/utils/merkleUtils/balanceTree.ts:15-36 | soundness: a claim accepted against the tree's root is entry `index` of the list, or a byte string hashed while building the tree and a different one hashed while checking the claim have equal hashes; promoted nodes and inner nodes offered as leaves included |
| `Balances.FiftyTwoBytesMustBeExcluded` | index-coop-smart-contracts/utils/merkleUtils/balanceTree.ts:20-25 | the one proof-item length soundness leaves out really breaks it: for every non-empty list and every claim that is not an entry of it, a hash and a proof starting with a 52-byte item under which the claim is accepted with no collision in sight |
| `Balances.LeafIsEntry` | index-coop-smart-contracts/utils/merkleUtils/balanceTree.ts:30-35 | a leaf reached by folding is the claim's own packed entry, or the two preimages clash |
| `Balances.PackInjective` | index-coop-smart-contracts/utils/merkleUtils/balanceTree.ts:31-35 | the packed encoding determines index, account and amount |
| `Balances.PackIsNumber` | index-coop-smart-contracts/utils/merkleUtils/balanceTree.ts:31-35 | the 84 bytes, read big-endian, are the index, then the account in 20 bytes, then the amount in 32 |
| `Balances.EntryIsNumber` | index-coop-smart-contracts/utils/merkleUtils/balanceTree.ts:31-35 | an entry's preimage holds its position, the number its address's forty hexadecimal digits stand for, and its amount, in these places |
| `Bytes.AddressNumber` | index-coop-smart-contracts/utils/merkleUtils/balanceTree.ts:31-35 | the twenty bytes of an address stand for the number of its forty digits |
| `Bytes.AddressByte` | index-coop-smart-contracts/utils/merkleUtils/balanceTree.ts:31-35 | each byte of an address is the number of its own two digits |
| `Bytes.NumberOfBigEndian` | index-coop-smart-contracts/utils/merkleUtils/balanceTree.ts:31-35 | words are big-endian: reading the bytes of a number gives it back |
| `Balances.EntryIsAccepted` | index-coop-smart-contracts/utils/merkleUtils/balanceTree.ts:42-44 | completeness for any hash: the proof handed out for an entry is accepted against the root and has only 32-byte items |
| `Balances.BalanceTree.Create` | index-coop-smart-contracts/utils/merkleUtils/balanceTree.ts:7-13 | the tree holds the hashed entries, canonically ordered; it fails exactly on an empty list |
| `Balances.BalanceTree.GetProof` | index-coop-smart-contracts/utils/merkleUtils/balanceTree.ts:42-44 | the proof of the entry's own leaf, or nothing when the leaf is not in the tree |
| `Balances.BalanceTree.VerifyProof` | index-coop-smart-contracts/utils/merkleUtils/balanceTree.ts:15-28 | the loop accepts exactly when folding the proof from the packed entry's hash gives the root |
| `Merkle.ProofReachesRoot` | index-coop-smart-contracts/utils/merkleUtils/merkleTree.ts:24-105 | completeness over the layers, for any hash and elements of any length: folding the siblings collected from any position gives the root |
| `Merkle.TreeProofComplete` | index-coop-smart-contracts/utils/merkleUtils/merkleTree.ts:62-88 | the tree answers for exactly the elements it was given, and every answer folds to the root |
| `Merkle.AcceptedPassesThroughLayer` | index-coop-smart-contracts/utils/merkleUtils/merkleTree.ts:24-60 | a proof folding to the root passes through an element of the bottom layer, or exhibits a clash |
| `Merkle.DescendOneLayer` | index-coop-smart-contracts/utils/merkleUtils/merkleTree.ts:40-60 | one layer down: landing on a parent means having landed on one of its children, or on the promoted child itself, or a clash |
| `Merkle.TreeDependsOnSet` | index-coop-smart-contracts/utils/merkleUtils/merkleTree.ts:8-22 | any permutation or repetition of the elements gives identical layers, root and proofs |
| `Merkle.LayersAreLogarithmic` | index-coop-smart-contracts/utils/merkleUtils/merkleTree.ts:24-38 | with L layers over n elements, 2^(L-1) >= n, and n > 2^(L-2) when n >= 2 |
| `Merkle.ProofIsShort` | index-coop-smart-contracts/utils/merkleUtils/merkleTree.ts:70-88 | a proof has at most L - 1 items |
| `Merkle.LayersStep` | index-coop-smart-contracts/utils/merkleUtils/merkleTree.ts:24-38 | each layer is computed from the one below, all share the root, and only the last has one element |
| `Merkle.RootSplits` | index-coop-smart-contracts/utils/merkleUtils/merkleTree.ts:24-49 | the root without layers: the hashed pair of the roots of the first 2^k elements and of the others, whenever those are 1 to 2^k many |
| `Merkle.PairIsNumber` | index-coop-smart-contracts/utils/merkleUtils/merkleTree.ts:51-60 | of two digests the one that is the smaller number goes in front |
| `Merkle.PairIsSorted` | index-coop-smart-contracts/utils/merkleUtils/merkleTree.ts:51-60 | for operands of any length, the one that ends or is less where they first differ goes in front |
| `Merkle.PairIsUnordered` | index-coop-smart-contracts/utils/merkleUtils/merkleTree.ts:51-60 | a pair hashes the same in either order |
| `Merkle.GetNextLayer` | index-coop-smart-contracts/utils/merkleUtils/merkleTree.ts:40-49 | the loop builds the parents of consecutive pairs and promotes an odd last element |
| `Merkle.GetLayers` | index-coop-smart-contracts/utils/merkleUtils/merkleTree.ts:24-38 | the loop terminates with all layers up to the root; an empty list throws |
| `Merkle.CollectSiblings` | index-coop-smart-contracts/utils/merkleUtils/merkleTree.ts:77-87 | the walk up the layers collects exactly the siblings of the position's ancestors |
| `Merkle.MerkleTree.Create` | index-coop-smart-contracts/utils/merkleUtils/merkleTree.ts:8-22 | elements sorted and deduplicated, every position indexed, all layers built; fails exactly on an empty list |
| `Merkle.MerkleTree.IndexPositions` | index-coop-smart-contracts/utils/merkleUtils/merkleTree.ts:15-18 | the position index is the exact inverse of the element list |
| `Merkle.MerkleTree.GetProof` | index-coop-smart-contracts/utils/merkleUtils/merkleTree.ts:70-88 | the element's sibling path, or a refusal exactly for a stranger |
| `Merkle.MerkleTree.GetRoot` | index-coop-smart-contracts/utils/merkleUtils/merkleTree.ts:62-64 | the only element of the last layer is the root over the bottom layer |
| `Ordering.DedupIncreasing` | index-coop-smart-contracts/utils/merkleUtils/merkleTree.ts:107-111 | on a sorted list, dropping an element equal to its left neighbour leaves every element once, strictly increasing |
| `Ordering.CanonicalDependsOnSet` | index-coop-smart-contracts/utils/merkleUtils/merkleTree.ts:10-13 | sort then deduplicate depends only on the set of elements |
| `BalanceMap.ParseBalanceMap` | index-coop-smart-contracts/utils/merkleUtils/parseBalanceMap.ts:7-48 | succeeds exactly on a non-empty list of distinct addresses with positive amounts below 2^256, returns the specified root, total and claims, and otherwise reports the first offence |
| `BalanceMap.GatherSucceeds` | index-coop-smart-contracts/utils/merkleUtils/parseBalanceMap.ts:8-16 | collecting succeeds exactly when addresses are distinct and earnings positive |
| `BalanceMap.GatheredPairs` | index-coop-smart-contracts/utils/merkleUtils/parseBalanceMap.ts:8-16 | the collected map holds exactly the pairs of the list |
| `BalanceMap.Collect` | index-coop-smart-contracts/utils/merkleUtils/parseBalanceMap.ts:8-16 | the left-to-right reduce, with its two errors and their precedence |
| `BalanceMap.FirstOffence` | index-coop-smart-contracts/utils/merkleUtils/parseBalanceMap.ts:8-16 | the error names the first entry that repeats an address or has no positive amount, a repetition taking precedence at one entry |
| `BalanceMap.BuildEntries` | index-coop-smart-contracts/utils/merkleUtils/parseBalanceMap.ts:18-23 | entries in address order with their amounts, unless an amount does not fit a 256-bit word |
| `BalanceMap.HandOutClaims` | index-coop-smart-contracts/utils/merkleUtils/parseBalanceMap.ts:26-36 | the claims, one per entry, each stored under its address |
| `BalanceMap.EveryClaimVerifies` | index-coop-smart-contracts/utils/merkleUtils/parseBalanceMap.ts:26-36 | every claim handed out verifies against the root for any hash, and indices number the addresses so that of any two the earlier has the smaller character where they first differ |
| `BalanceMap.IndicesFollowAddresses` | index-coop-smart-contracts/utils/merkleUtils/parseBalanceMap.ts:18-36 | of two claims the lower index belongs to the address with the smaller character at the first difference |
| `BalanceMap.ClaimantsAreListed` | index-coop-smart-contracts/utils/merkleUtils/parseBalanceMap.ts:26-36 | an address has a claim exactly when it is in the input |
| `BalanceMap.ClaimIsForEarnings` | index-coop-smart-contracts/utils/merkleUtils/parseBalanceMap.ts:26-36 | a listed address's claim is for exactly its earnings |
| `BalanceMap.TokenTotalIsSumOfEarnings` | index-coop-smart-contracts/utils/merkleUtils/parseBalanceMap.ts:38-41 | the total is the sum of all input earnings |
| `BalanceMap.InputOrderIsIrrelevant` | index-coop-smart-contracts/utils/merkleUtils/parseBalanceMap.ts:7-48 | reordering the input changes neither acceptance nor anything in the result |
| `ClaimedBitmap.ClaimedAfterSet` | index-coop-smart-contracts/contracts/token/MerkleDistributor.sol:20-32 | the packed words behave as a set: setting one index marks it and changes no other |
| `ClaimedBitmap.ClaimedIsBit` | index-coop-smart-contracts/contracts/token/MerkleDistributor.sol:20-26 | index i is claimed exactly when bit i mod 256 of word i div 256, got by division, is one |
| `ClaimedBitmap.WordsAfterSet` | index-coop-smart-contracts/contracts/token/MerkleDistributor.sol:28-32 | marking adds 2^(i mod 256) to word i div 256, unless it was there, and changes no other word |
| `ClaimedBitmap.OrStaysInWord` | index-coop-smart-contracts/contracts/token/MerkleDistributor.sol:28-32 | setting a bit never outgrows the 256-bit word |
| `Distributor.MerkleDistributor.Claim` | index-coop-smart-contracts/contracts/token/MerkleDistributor.sol:34-46 | one call is the specified step: already claimed, invalid proof and failed transfer revert and change nothing, otherwise the index is marked and the amount moved |
| `Distributor.Token.Transfer` | index-coop-smart-contracts/contracts/token/MerkleDistributor.sol:43 | a transfer moves the amount out of the contract's balance or changes nothing |
| `DistributorRuns.TransferMoves` | index-coop-smart-contracts/contracts/token/MerkleDistributor.sol:43 | a transfer goes through exactly when it is permitted and funded, and then debits the contract and credits the recipient, also when they are the same |
| `DistributorRuns.SuccessfulClaimIsEntry` | index-coop-smart-contracts/contracts/token/MerkleDistributor.sol:34-46 | a call that goes through without a collision pays the right account the right amount for an index not paid before |
| `DistributorRuns.RefusalReasons` | index-coop-smart-contracts/contracts/token/MerkleDistributor.sol:34-46 | which of the three reasons a refused call gets, and their precedence |
| `DistributorRuns.ClaimedIsPaid` | index-coop-smart-contracts/contracts/token/MerkleDistributor.sol:34-46 | after any run, an index is claimed exactly when some call of the run paid it |
| `DistributorRuns.PaidOnce` | index-coop-smart-contracts/contracts/token/MerkleDistributor.sol:34-46 | no index is paid by two calls of a run |
| `DistributorRuns.RunKeepsAccounts` | index-coop-smart-contracts/contracts/token/MerkleDistributor.sol:34-46 | over every run of arbitrary calls without a collision, each balance is its opening balance plus exactly the account's claimed entries, each counted once |
| `DistributorRuns.OutflowAtMostTotal` | index-coop-smart-contracts/contracts/token/MerkleDistributor.sol:34-46 | no run pays out more than the total of the entries |
| `DistributorRuns.ClaimedForEver` | index-coop-smart-contracts/contracts/token/MerkleDistributor.sol:20-32 | a claimed index stays claimed over any further calls |
| `DistributorRuns.UnclaimedEntryCanBeClaimed` | index-coop-smart-contracts/contracts/token/MerkleDistributor.sol:34-46 | after any such run on a funded contract, an entry's own claim succeeds exactly when its index is unclaimed, and is then marked |
| `DistributorRuns.PublishedDistributionPaysOut` | index-coop-smart-contracts/utils/merkleUtils/parseBalanceMap.ts:43-47 | end to end from the published root, total and claims to the last payout: bounded outflow, and every published claim collectable until claimed |
| `NavIssuance.IssuanceNeverDilutes` | index-protocol/utils/common/navIssuanceModuleUtils.ts:19-50 | (S+Q)*T <= S*(T+N1) across all intermediate roundings |
| `NavIssuance.RedemptionNeverDilutes` | index-protocol/utils/common/navIssuanceModuleUtils.ts:121-137 | if the reserve held backs V for each of S tokens, what is left after a redemption of Q backs V for each of the other S-Q |
| `NavIssuance.OutflowAtMostWorth` | index-protocol/utils/common/navIssuanceModuleUtils.ts:121-137 | outflow*U*U <= V*Q*B across the roundings |
| `NavIssuance.IssueQuantityNearExact` | index-protocol/utils/common/navIssuanceModuleUtils.ts:38-49 | the quantity issued against the exact share, from both sides; the net deposit before and after the premium against net/B and net*(1-premium)/B, from both sides; and exactly when the division throws |
| `NavIssuance.IssueQuantityExactly` | index-protocol/utils/common/navIssuanceModuleUtils.ts:44-49 | for every y, the quantity is y or more exactly when ceil(y*denominator/U)*U <= N2*S |
| `NavIssuance.RoundTripGivesNoProfit` | index-protocol/utils/common/navIssuanceModuleUtils.ts:19-107 | issue then redeem at any supported valuation pays at most the deposit net of the issue fees |
| `NavIssuance.RedeemNearExact` | index-protocol/utils/common/navIssuanceModuleUtils.ts:88-107 | the reserve paid out is the exact V*Q*(1-premium)*(1-fees) to within one base unit plus 2*B/U, both sides |
| `NavIssuance.RedemptionExactly` | index-protocol/utils/common/navIssuanceModuleUtils.ts:96-137 | payment and outflow rounded step by step, the premium rounded against the redeemer and each fee in favour, the fees in the payment only |
| `NavIssuance.OutflowNearExact` | index-protocol/utils/common/navIssuanceModuleUtils.ts:133-137 | the outflow is the exact V*Q*(1-premium) in base units to within one base unit plus 2*B/U, both sides |
| `NavIssuance.PostFeeWithin` | index-protocol/utils/common/navIssuanceModuleUtils.ts:77-86 | fees take at most everything and never add |
| `NavIssuance.FeesRoundApart` | index-protocol/utils/common/navIssuanceModuleUtils.ts:77-86 | manager and protocol fee are each rounded down on their own |
| `NavIssuance.OutflowCoversRedemption` | index-protocol/utils/common/navIssuanceModuleUtils.ts:96-137 | the reserve leaving the position covers the reserve paid to the redeemer |
| `NavIssuance.IssueMultiplierBounds` | index-protocol/utils/common/navIssuanceModuleUtils.ts:7-17 | on issue multiplier*supply does not increase, and falls by no more than rounding |
| `NavIssuance.RedeemMultiplierBounds` | index-protocol/utils/common/navIssuanceModuleUtils.ts:109-119 | the same two bounds on redemption |
| `NavIssuance.MultiplierExactly` | index-protocol/utils/common/navIssuanceModuleUtils.ts:7-17 | for every y, the new multiplier, on issue and on redemption, is y or more exactly when ceil(y*U/m)*S1 <= S0*U |
| `NavIssuance.ThrowsExactly` | index-protocol/utils/common/navIssuanceModuleUtils.ts:7-145 | exactly which zeros make the computations throw; the issue multiplier at a zero supply comes back unchanged |
| `NavIssuance.MultiplierTimesSupplyNeverGrows` | index-protocol/utils/common/navIssuanceModuleUtils.ts:7-17 | over any run of issues and redemptions at positive supply, multiplier*supply never increases, and falls by at most the sum of the steps' roundings |
| `NavIssuance.VirtualRoundTripBounds` | index-protocol/utils/common/navIssuanceModuleUtils.ts:72-74 | real to virtual to real: r <= x and (x-r-1)*m < U |
| `NavIssuance.VirtualRoundTripExactly` | index-protocol/utils/common/navIssuanceModuleUtils.ts:72-74 | for every y, the round trip leaves y or more exactly from ceil(ceil(y*m/U)*U/m) on |
| `NavIssuance.IssueUnitNeverOverclaims` | index-protocol/utils/common/navIssuanceModuleUtils.ts:52-75 | unit'*S1 <= S0*unit + netDeposit*U, and short of it by less than one base unit, two units per token and one virtual unit per token |
| `NavIssuance.IssueUnitExactly` | index-protocol/utils/common/navIssuanceModuleUtils.ts:61-74 | for every y, the new unit is y or more exactly when floor(S0*unit/U) + netDeposit reaches the balance that y takes through all three roundings |
| `NavIssuance.RedeemUnitNeverOverclaims` | index-protocol/utils/common/navIssuanceModuleUtils.ts:121-145 | unit'*S1 <= S0*unit - outflow*U whenever the position covers the outflow, and short of it by no more than on an issue |
| `NavIssuance.RedeemUnitExactly` | index-protocol/utils/common/navIssuanceModuleUtils.ts:133-144 | for every y, the same condition on floor(S0*unit/U) - outflow |
| `NavIssuance.RunNeverOverclaims` | index-protocol/utils/common/navIssuanceModuleUtils.ts:52-145 | over any run of issues and covered redemptions, unit_k*S_k <= unit_0*S_0 + U*(net deposits - outflows), and short of it by at most the sum of the events' roundings |
| `NavIssuance.RedeemUnitWhenShort` | index-protocol/utils/common/navIssuanceModuleUtils.ts:121-145 | a redemption exceeding the position gives a unit r <= 0 with abs(r)*S1 <= shortfall*U, and meets the bound of a covered one exactly when the shortfall is at least what the roundings need to pass the debt on |
| `NavIssuance.ShortRedemptionForgetsDebt` | index-protocol/utils/common/navIssuanceModuleUtils.ts:121-145 | a concrete redemption from an empty position whose new unit is zero although it owes one |
| `FlexibleLeverage.RecentringFollowsSpeed` | index-coop-smart-contracts/utils/flexibleLeverageUtils/flexibleLeverage.ts:16-20 | where no bound holds it back the new ratio is target*speed + (1-speed)*current to within two units below, or one either way for a negative ratio |
| `FlexibleLeverage.PartsRoundApart` | index-coop-smart-contracts/utils/flexibleLeverageUtils/flexibleLeverage.ts:16-20 | the two parts are each rounded toward zero and their sum held within the bounds; the minimum wins if the bounds cross |
| `FlexibleLeverage.RecentringTracksDecay` | index-coop-smart-contracts/utils/flexibleLeverageUtils/flexibleLeverage.ts:9-21 | n recentrings from within the bounds leave the exact (1-speed)^n part of the signed distance, short of it by at most 2n units |
| `FlexibleLeverage.RecentringConvergesGeometrically` | index-coop-smart-contracts/utils/flexibleLeverageUtils/flexibleLeverage.ts:9-21 | Excess_n * U^n <= Excess_0 * (U-speed)^n over n recentrings from any start |
| `FlexibleLeverage.RecentringReachesBand` | index-coop-smart-contracts/utils/flexibleLeverageUtils/flexibleLeverage.ts:9-21 | the band abs(ratio-target)*speed < 2U is reached within abs(ratio-target) steps and never left |
| `FlexibleLeverage.DistanceStrictlyShrinks` | index-coop-smart-contracts/utils/flexibleLeverageUtils/flexibleLeverage.ts:16-20 | outside the band every recentring strictly reduces the distance to the target |
| `FlexibleLeverage.BandIsAbsorbing` | index-coop-smart-contracts/utils/flexibleLeverageUtils/flexibleLeverage.ts:16-20 | inside the band, always inside it |
| `FlexibleLeverage.RecentredStaysWithin` | index-coop-smart-contracts/utils/flexibleLeverageUtils/flexibleLeverage.ts:19-20 | from the first recentring on the ratio is within [min, max] |
| `FlexibleLeverage.NotionalBrackets` | index-coop-smart-contracts/utils/flexibleLeverageUtils/flexibleLeverage.ts:58-74 | both notional forms against abs(n-c)*B/c from both sides, at any positive ratio |
| `FlexibleLeverage.NotionalNearExact` | index-coop-smart-contracts/utils/flexibleLeverageUtils/flexibleLeverage.ts:51-75 | at a ratio of one or more the V3 form is the exact floor or one less, and the older form exceeds it by at most one |
| `FlexibleLeverage.NotionalsExactly` | index-coop-smart-contracts/utils/flexibleLeverageUtils/flexibleLeverage.ts:51-75 | for every y, when each form is y or more; both throw exactly at a zero ratio |
| `FlexibleLeverage.CollateralLandsOnTarget` | index-coop-smart-contracts/utils/flexibleLeverageUtils/flexibleLeverage.ts:64-75 | after the V3 trade collateral is within two units of B*n/c, levering or delevering |
| `FlexibleLeverage.DeleverShortfallAtMostTwo` | index-coop-smart-contracts/utils/flexibleLeverageUtils/flexibleLeverage.ts:78-95 | the withdrawal is at most the balance, keeps the debt's share of the limit to within rounding, and the limit recomputed on what is left is at least the debt less two |
| `FlexibleLeverage.DeleverExactly` | index-coop-smart-contracts/utils/flexibleLeverageUtils/flexibleLeverage.ts:78-110 | for every y, both withdrawals are y or more exactly when ceil(y*limit/U)*U <= balance*(limit-debt); they throw exactly at a zero limit |
| `FlexibleLeverage.DeleverCoversDebtExactly` | index-coop-smart-contracts/utils/flexibleLeverageUtils/flexibleLeverage.ts:78-95 | the recomputed limit covers the debt if and only if A*U < (K+1)*limit, where A = PreciseMul(balance, limit-debt) and K is the balance less the least balance whose limit covers the debt; for a debt above the limit, where A is negative, if and only if A*U <= K*limit |
| `FlexibleLeverage.LimitCovers` | index-coop-smart-contracts/utils/flexibleLeverageUtils/flexibleLeverage.ts:86-91 | the limit on a balance reaches a debt exactly from the balance got by dividing the debt back through the three factors, rounding up each time |
| `FlexibleLeverage.DeleverFallsTwoShort` | index-coop-smart-contracts/utils/flexibleLeverageUtils/flexibleLeverage.ts:78-95 | inputs at which the recomputed limit is two below the debt, for every unit of a hundred or more |
| `FlexibleLeverage.DeleverV3ShortfallAtMostOne` | index-coop-smart-contracts/utils/flexibleLeverageUtils/flexibleLeverage.ts:97-110 | the same bounds with one floor fewer: at least the debt less one |
| `FlexibleLeverage.DeleverV3CoversDebtExactly` | index-coop-smart-contracts/utils/flexibleLeverageUtils/flexibleLeverage.ts:97-110 | the same exact condition for the V3 limit |
| `FlexibleLeverage.LimitV3Covers` | index-coop-smart-contracts/utils/flexibleLeverageUtils/flexibleLeverage.ts:105-107 | the V3 limit reaches a debt exactly from the balance its two factors need |
| `FlexibleLeverage.DeleverV3FallsOneShort` | index-coop-smart-contracts/utils/flexibleLeverageUtils/flexibleLeverage.ts:97-110 | inputs at which the recomputed V3 limit is one below the debt |
| `FlexibleLeverage.FloorKeepsProportion` | index-coop-smart-contracts/utils/flexibleLeverageUtils/flexibleLeverage.ts:86-94 | one floored scaling keeps a proportion up to one more unit of loss |
| `StreamingFee.RunSolvency` | index-coop-smart-contracts/utils/common/feeModuleUtils.ts:22-45 | over any run of accruals, unit_k*supply_k <= unit_0*supply_0 for an asset |
| `StreamingFee.RunDebtSolvency` | index-coop-smart-contracts/utils/common/feeModuleUtils.ts:22-45 | over any run of k accruals a debt keeps abs(unit_k)*supply_k >= abs(unit_0)*(supply_0-k) |
| `StreamingFee.AccrualSolvency` | index-coop-smart-contracts/utils/common/feeModuleUtils.ts:22-45 | one accrual: an asset's claim on the supply never grows; a debt satisfies abs(u')*(supply'+1) > abs(u)*supply |
| `StreamingFee.RunAssetAccuracy` | index-coop-smart-contracts/utils/common/feeModuleUtils.ts:32-45 | k accruals leave an asset at most k units below the exact product of the kept fractions, never above |
| `StreamingFee.RunDebtAccuracy` | index-coop-smart-contracts/utils/common/feeModuleUtils.ts:32-45 | k accruals never understate a debt, and overstate it by at most k units |
| `StreamingFee.MintedShare` | index-coop-smart-contracts/utils/common/feeModuleUtils.ts:22-30 | the minted amount is the fee percentage of the new supply, rounded down, from both sides |
| `StreamingFee.FeeIsProRata` | index-coop-smart-contracts/utils/common/feeModuleUtils.ts:18-19 | the fee is time*rate over a year of 31557600 seconds, rounded toward zero for every sign |
| `StreamingFee.AnyPercentage` | index-coop-smart-contracts/utils/common/feeModuleUtils.ts:22-45 | for every percentage, minting throws exactly at the whole and is truncated otherwise; asset units are truncated and debt units rounded away from zero |
| `StreamingFee.SplitPeriodLosesAtMostOne` | index-coop-smart-contracts/utils/common/feeModuleUtils.ts:18-19 | accruing a period in two parts gives the same fee or one less |
| `StreamingFee.PostFeePositionUnits` | index-coop-smart-contracts/utils/common/feeModuleUtils.ts:32-45 | the loop rescales every unit in order; for percentages in [0, U) assets are rounded down and debts up, each by less than one unit |
| `CoopMath.Sqrt` | index-coop-smart-contracts/utils/common/mathUtils.ts:68-76 | terminates on every integer and returns the floor of the root; a negative argument comes back unchanged |
| `CoopMath.NewtonStep` | index-coop-smart-contracts/utils/common/mathUtils.ts:71-74 | a Newton step never falls below the floor of the root |
| `CoopMath.BaseLeft` | index-coop-smart-contracts/utils/externalProtocolUtils/uniswapUtils.ts:23-24 | baseLeft^2*p <= K*U < (baseLeft+1)^2*p for every adjusted price p > 0; a zero price throws |
| `CoopMath.DivCeilIntPositiveDivisor` | index-coop-smart-contracts/utils/common/mathUtils.ts:41-51 | for a positive divisor, rounding away from zero for every dividend |
| `CoopMath.DivCeilIntNegativeDivisor` | index-coop-smart-contracts/utils/common/mathUtils.ts:41-51 | for a negative divisor, rounding away from zero exactly when a is zero or abs(b) divides neither abs(a)*U nor abs(a)*U+1 |
| `CoopMath.DivCeilIntNegativeDivisorWitness` | index-coop-smart-contracts/utils/common/mathUtils.ts:41-51 | the concrete failure: 1 / -1 gives -(U+2) |
| `CoopMath.DivDown` | index-coop-smart-contracts/utils/common/mathUtils.ts:53-59 | floor division where it returns; it throws exactly on a zero divisor, or a negative one with a positive dividend |
| `ProtocolMath.DivCeilIntRoundsAway` | index-protocol/utils/common/mathUtils.ts:41-52 | for every non-zero divisor, rounding away from zero |
| `ProtocolMath.TwinsAgree` | index-protocol/utils/common/mathUtils.ts:41-52 | the two versions agree exactly for positive divisors, and for negative ones with a zero dividend or under the divisibility condition; on a zero divisor one returns zero and the other throws |
| `ProtocolMath.DivDown` | index-protocol/utils/common/mathUtils.ts:54-62 | floor division for every non-zero divisor |
| `FixedPoint.MulCeilIntRoundsAway` | index-coop-smart-contracts/utils/common/mathUtils.ts:17-27 | rounding a product away from zero for every pair of signs |
| `Rounding.MulCeilExactly` | index-coop-smart-contracts/utils/common/mathUtils.ts:9-15 | for every pair of signs: the result is the ceiling exactly when the product is not negative, or U divides its magnitude plus one |
| `Rounding.DivCeilExactly` | index-coop-smart-contracts/utils/common/mathUtils.ts:33-39 | for every non-zero divisor, exactly when the result is the ceiling, sign by sign |
| `Rounding.DivCeilMagnitude` | index-coop-smart-contracts/utils/common/mathUtils.ts:33-39 | its value on every pair of operands, a zero divisor included |
| `Rounding.MulTruncates` | index-coop-smart-contracts/utils/common/mathUtils.ts:5-7 | for every pair of signs the product is truncated toward zero |
| `Rounding.DivTruncates` | index-coop-smart-contracts/utils/common/mathUtils.ts:29-31 | for every non-zero divisor the quotient is truncated toward zero |
| `ExactEthIssuance.IssueSetForExactETH` | index-coop-smart-contracts/utils/common/exchangeIssuanceUtils.ts:27-89 | the greatest q <= MAX_UINT_256 with q*unit_i <= out_i*U for every component; exactly when a division by zero throws |
| `ExactEthIssuance.AllocationsExhaustInput` | index-coop-smart-contracts/utils/common/exchangeIssuanceUtils.ts:63-66 | scaled allocations sum to at most the input and fall short by fewer units than there are components |
| `ExactEthIssuance.EthFor` | index-coop-smart-contracts/utils/common/exchangeIssuanceUtils.ts:43-56 | the cost is the unit of wrapped ETH itself, else the least quote, a missing one counting as MAX_UINT_256 |
| `ExactEthIssuance.OutFor` | index-coop-smart-contracts/utils/common/exchangeIssuanceUtils.ts:68-81 | what is bought is the input itself for wrapped ETH, else the greatest quote, and zero without one |
| `PathEncoding.EncodePath` | index-coop-smart-contracts/utils/common/exchangeIssuanceUtils.ts:368-385 | the loop appends address and padded fee alternately and lower-cases; mismatched lengths throw |
| `PathEncoding.EncodedDecodes` | index-coop-smart-contracts/utils/common/exchangeIssuanceUtils.ts:368-385 | a reader of the format recovers the lower-cased path and the fees |
| `PathEncoding.EncodedLength` | index-coop-smart-contracts/utils/common/exchangeIssuanceUtils.ts:369-384 | the length is 2+40*#path+6*#fees exactly when every fee fits three bytes |
| `PathEncoding.EncodingIsInjective` | index-coop-smart-contracts/utils/common/exchangeIssuanceUtils.ts:368-385 | equal encodings exactly when the paths agree up to letter case and the fees agree |
| `PathEncoding.FeeField` | index-coop-smart-contracts/utils/common/exchangeIssuanceUtils.ts:377-381 | the padded field reads back as the fee and has six characters exactly when it fits three bytes |
| `PathEncoding.FeeIsWholeBytes` | index-coop-smart-contracts/utils/common/exchangeIssuanceUtils.ts:377-381 | the field is whole bytes, and beyond three of them no more than the fee needs |
| `PathEncoding.EncodingIsLowerCase` | index-coop-smart-contracts/utils/common/exchangeIssuanceUtils.ts:384 | no encoding holds a capital letter |
| `PathEncoding.LowerKeepsNumber` | index-coop-smart-contracts/utils/common/exchangeIssuanceUtils.ts:384 | lower-casing hexadecimal digits keeps the number they stand for |

## Left out

- keccak256 itself, base58, address checksums and general ABI encoding: foreign libraries. Accounts are 20 bytes, written
  as "0x" and 40 hexadecimal digits in either case; two spellings of one account are two different keys, as in the source.
- Addresses that are not 42 characters of that form: the type admits them, the hashing library's answer to them is not modelled.
- `BalanceMap.ParseBalanceMap`: amounts of 2^256 or more are refused, as the library refuses to pack them; arrays have fewer than 2^32 elements.
- `Merkle.MerkleTree.Create`: the in-place sort of the private copy is a sorting function on values, and hexadecimal renderings of
  buffers are the buffers themselves, so the position index is keyed by bytes.
- `Distributor.MerkleDistributor.Claim`: events, gas and re-entrancy from the token are not modelled; the token is a ledger with an
  arbitrary rule on which transfers it permits; the library's proof check, MerkleProof, is not part of this model's
  sources and is taken to fold the proof in the same sorted-pair order.
- `ClaimedBitmap.ClaimedAfterSet`: shifts, `&` and `|` on 256-bit words are written on naturals, bit by bit.
- `ExactEthIssuance.IssueSetForExactETH`: router quotes and pair lookups are inputs of each component.
- `PathEncoding.EncodePath`: fees are natural numbers (the library throws on others), and lower-casing covers the letters A to Z.
- `NavIssuance.RedeemUnitNeverOverclaims`: stated for redemptions the position covers; `NavIssuance.RedeemUnitWhenShort` covers the
  others, where the bound can fail.
- `Distributor.Token.Transfer`: the source calls an arbitrary ERC20; here a ledger with an arbitrary rule on which transfers it
  permits, so fees on transfer, rebasing and re-entrant tokens are not modelled.
- `FlexibleLeverage.DeleverShortfallAtMostTwo`, and `FlexibleLeverage.DeleverV3ShortfallAtMostOne`: for a debt within the limit; above it the
  helper returns a deposit, for which the exact conditions hold and no constant bound is stated.
- Reads of balances, supplies, valuations, rates and fee states from contracts: parameters.
- `calculateCollateralRebalanceUnits`, the Compound notional and `calculateMaxRedeemForDeleverToZero`: the same formulas with one more division.
- The swaps that follow `baseLeft`, deployment helpers, fixtures, other exchange-issuance sums, and perpetual utilities: I/O or foreign quotes.
- index-protocol's own `uniswapUtils` and `feeModuleUtils`: the former compares library integers with language operators; the latter repeats the index-coop copy.
- The rest of the Solidity contracts.

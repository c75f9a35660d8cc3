# Verification of the smoothing pool

A Dafny model of two parts of the repository and proofs about them.

**The Merkle proof engine.** Caller-chosen generalized indices determine helper indices; leaves and helper words seed a
map; a worklist that grows while it is scanned hashes sibling pairs until the root appears. The model has the
calculators and array algorithms step by step (`Merkle`, `Arrays`, `SSZ`, `BitTricks`, `Encoding`) and an independent
reference to hold them against: labelled trees and top-down evaluation of a partial tree (`MerkleTree`), and the cut that
leaves and helpers make through a tree (`Multiproof`). `BeaconOracle` and `BeaconHeader` put the containers on top;
`Proposals` says what an accepted fee recipient claim means for its block.

**The reward ledger.** Four accumulators updated in constant time stand in for a sum over all validators. `Ledger` is the
pool as a state machine with reverts and 256-bit checked arithmetic; `SmoothlyPool` is the contract as a class whose
transactions are proved to be steps of it; `Accounting` and `Runs` relate the accumulators to the sums over whole runs;
`Safety` shows that checked arithmetic does not fail; `Distribution` is about payouts; `Transactions` states apart from
the ledger's own formulas what every transaction does, whom it pays and when it completes.

## Reading the statements

- The pair hash is a parameter `H`, and nothing is assumed about it. On 256-bit words no hash is injective, so binding
  is not stated under injectivity: each binding result says that the data are equal **or** names the place where two
  different pairs that were actually hashed have one hash (`BranchCollides`, `BranchesCollide`, `CollidesAbove`,
  `MultiCollides`, `ChunksCollide`). For a hash without such a collision the second case is empty.
- A generalized index is a `uint256`. AND, OR, XOR and shifts on indices are defined bit by bit in `Bits`; words are
  256-bit vectors.
- A revert is `Failure` or `Reverted` with its reason; `Panic` is a failed checked operation. The class restores its
  storage on a revert. A completed transaction reports the ETH it sent and to whom (`Payment`).
- `Books(p, pending, e)` is the ledger invariant. It holds on **every** run with three error terms that the code makes
  necessary; `Books(p, pending, NONE)` says that the accumulators are the sums.
  - `misdated` grows when a validator withdraws between its registration (or update) and the next rebalance, because
    `withdraw` overwrites its `start` (`Settled`);
  - `drift` grows when an active validator is updated later than in the block of the rebalance, because the update
    credits time the pool has not counted (`Punctual`);
  - `shifted` grows when an active validator withdraws and then leaves before the next rebalance, because `_exit` tells
    pending from active by `start >= lastRebalance` (`MayLeave`).

  All accumulators are exact throughout a run if and only if every transaction meets these conditions (`RunExactIff`).
  The unit totals are right if and only if withdrawals are settled and updates punctual (`UnitsExactIff`); stake on the
  wrong side of the split then still moves the period's units of that stake between `pendingSmooths` and the later
  accrual, which `UnitsExact` writes out. `Settled` and `Punctual` can be read off storage before the call. So can
  `MayLeave`, except for a validator whose `start` equals `lastRebalance` (`MayLeaveByStart`): whether it joined in that
  block or has withdrawn since is known only from its earlier transactions. `Counterexamples` has a run from deployment
  for each condition, starting at any time after the beacon chain's genesis.
- The contract class keeps `Books` and `Solvent` as its invariant; its ghost field `book` holds the pending set and the
  error terms.
- A multiproof binds leaf n exactly when the leaf is effective: its index is at least 1, does not occur again later in
  the list, and has no strict ancestor among the indices (`LeafBinding`, `LeafInjective`). Any other leaf has no
  influence on the root at all (`IneffectiveLeaf`): a later leaf at the same index overwrites it, index 0 lies in no tree,
  and a covered leaf is never read.
- `withdraw` and `slashBadFeeRecipient` rest on a claim that validator v proposed the block and f is its fee recipient,
  but `verifyFeeRecipient` takes both indices from the caller and checks neither. What an accepted claim says:
  - `ProposerCounts` binds v to the node at the first index, whatever that node holds, and `RecipientCounts` binds f to
    the node at the second (`ClaimBinding`); without them v or f is not bound at all (`ProposerUnbound`,
    `RecipientUnbound`). Any two nodes that hold a number and an address in their encodings are an accepted claim
    (`ClaimComplete`).
  - So the promise fails for accepted claims: at index 8 the block's slot passes as its proposer (`SlotAsProposer`).
  - Claims at given indices name the block's own proposer, for every block and every claim, if and only if the first
    index is 9 and counts (`ProposerNamedIff`); they name its fee recipient if and only if the second is 6433 and counts
    (`RecipientNamedIff`). The equivalences are about all hashes and about blocks without a collision, and leave out no
    index. The project's own proofs use 9 and 6433, and there claims mean what they say (`OwnClaim`).
- The words of a multiproof stay in transient storage until the end of the transaction. A later verification in the same
  transaction reads the root word that is already there unless index 1 is among its indices (`RootRead`). After one
  accepted claim, every later one of the transaction about the same block is accepted at indices other than 1 if only
  its proof has the right length (`ClaimsInOneTransaction`); a slash is then decided without the block
  (`SlashDecision`).
- When no submitted index lies in the tree and no word is left over, the root slot is never set and the result is the
  zero word (`RootSetIff`).
- The Rust index fold panics on an index of 2^63 or more, also where the result fits 64 bits; the Solidity form does
  not (`ConcatenationsAgree`).
- The project's documentation and code differ on the bond and its use: the text speaks of 0.3 ETH and of a share for the
  slasher, the code takes 0.1 ETH and pays all of it to the slasher. The model follows the code.

## Model

| member | source | states |
|---|---|---|
| BitTricks.Log2 | src/libraries/Merkle.sol:113-140 | for every 256-bit word the comparisons, smearing and De Bruijn lookup yield floor(log2), and revert on zero |
| BitTricks.LookupIsLog | src/libraries/Merkle.sol:127-138 | the De Bruijn product of k+1 ones selects byte k of the lookup word, for all 32 values |
| Bits.DepthUnique | src/libraries/Merkle.sol:110-113 | 2^r <= x < 2^(r+1) singles out r, so `Depth` is the documented log2 |
| Bits.AndBit | src/libraries/Merkle.sol:21-28 | AND on numbers is AND of their bits |
| Bits.XorBit | src/libraries/Merkle.sol:106-108 | XOR on numbers is inequality of their bits |
| Bits.OrBit | src/libraries/Merkle.sol:127-133 | OR on numbers is OR of their bits |
| BitTricks.FloorPowerOfTwo | eip-4788-prover/dbg/src/main.rs:179-193 | the largest power of two not above x for 0 < x < 2^63, zero for zero, overflow panic exactly from 2^63 on |
| BitTricks.ConcatGeneralizedIndices | eip-4788-prover/dbg/src/main.rs:171-177 | the fold concatenates the tree paths; it panics exactly when an index or a prefix leaves its range |
| BitTricks.ConcatGindices | src/libraries/SSZ.sol:297-304 | the shift/xor form is path concatenation modulo 2^64; zero reverts |
| BitTricks.ConcatenationsAgree | src/libraries/SSZ.sol:297-304 | for all uint64 pairs: exactly when the Rust fold answers, and then with the Solidity form's index; a second index of zero, where they part, is refused by one and collapsed by the other |
| BitTricks.ValidatorGindex | src/SmoothlyPoolV2.sol:17-18 | for every uint64 v the pool's index is a validator's place in the registry exactly for v < 2^40, and is then the path 11, 43, 2^41+v |
| Gindices.ConcatAssociative | eip-4788-prover/dbg/src/main.rs:171-177 | path concatenation is associative |
| Gindices.ConcatFormula | eip-4788-prover/dbg/src/main.rs:174 | walking path b from node a equals a * floor(b) + (b - floor(b)) |
| Arrays.Concat | src/libraries/Arrays.sol:38-47 | the result holds the first array, then the second |
| Arrays.Push | src/libraries/Arrays.sol:50-56 | the result is the array with the item at the end |
| Arrays.Pop | src/libraries/Arrays.sol:59-65 | the result is the array without its last item |
| Arrays.DifferenceArray | src/libraries/Arrays.sol:68-87 | the result lists the words of the first array outside the second, each at its last occurrence |
| Arrays.DifferenceIsSetDifference | src/libraries/Arrays.sol:67-87 | that list has exactly the elements of the set difference, without duplicates |
| Arrays.Partition | src/libraries/Arrays.sol:127-141 | one scan permutes the segment and leaves larger words before the pivot and the others after it |
| Arrays.QuickSort | src/libraries/Arrays.sol:123-145 | in place, the segment becomes a non-increasing permutation of itself and the rest is untouched |
| Arrays.SortReverse | src/libraries/Arrays.sol:90-114 | the array becomes a non-increasing permutation of itself |
| Arrays.DecreasingUnique | src/libraries/Merkle.sol:77 | a strictly decreasing list is determined by its elements |
| Arrays.HashMap.Set | src/libraries/Arrays.sol:8-14 | the key maps to the value and every other key is unchanged |
| Arrays.HashMap.Get | src/libraries/Arrays.sol:17-22 | a set key reads as its word, an unset one as the zero word |
| Arrays.HashMap.Contains | src/libraries/Arrays.sol:25-31 | true exactly for keys that were set, whatever their value |
| MerkleTree.BranchComplete | src/libraries/Merkle.sol:16-30 | in a consistent labelling the true branch of any node leads to the root |
| MerkleTree.BranchBinding | src/libraries/Merkle.sol:16-30 | a branch that leads to the true root carries the true leaf and siblings, or a collision at one of its levels |
| MerkleTree.BranchInjective | src/libraries/Merkle.sol:16-30 | two branches at one index with one root are the same, or collide at one level |
| MerkleTree.BranchComposition | eip-4788-prover/dbg/src/main.rs:139-152 | a proof below followed by a proof above is one proof at the concatenated index |
| MerkleTree.ClosureIsLeast | src/libraries/Merkle.sol:50-62 | a map closed under hashing siblings, all of whose words are derived, is the least closed map |
| MerkleTree.LeastClosureUnique | src/libraries/Merkle.sol:50-62 | there is only one least closure, so the order of the keys cannot matter |
| MerkleTree.ClosureIsEval | src/libraries/Merkle.sol:50-64 | the closure holds exactly the words found by evaluating the partial tree from the top |
| MerkleTree.NodeBinding | src/libraries/Merkle.sol:50-64 | under the true root a node with no known strict ancestor has its true word, or a collision shows above it |
| MerkleTree.ShadowedNode | src/libraries/Merkle.sol:50-64 | a known node below another known node has no influence outside that subtree |
| Merkle.CalculateMerkleRoot | src/libraries/Merkle.sol:16-30 | accepts exactly proofs of length log2(index) and returns the root of the branch; zero reverts |
| Merkle.GetBranchIndices | src/libraries/Merkle.sol:82-89 | the siblings on the way to the root, lowest first, for every index |
| Merkle.GetPathIndices | src/libraries/Merkle.sol:93-100 | the nodes on the way to the root without the root, for every index |
| Merkle.GetHelperIndices | src/libraries/Merkle.sol:70-78 | the helper set, strictly decreasing |
| Merkle.SortedHelpers | src/libraries/Merkle.sol:77 | sorting the de-duplicated difference gives that list |
| Merkle.Visit | src/libraries/Merkle.sol:52-60 | the parent is hashed and stored exactly when the pair is complete and the parent unset |
| Merkle.Propagate | src/libraries/Merkle.sol:50-62 | the growing worklist terminates on every map, overwrites nothing and adds only hashes of pairs; when the keys, in any order, list the tree nodes of the map, it reaches the least closure |
| Merkle.CalculateMultiMerkleRoot | src/libraries/Merkle.sol:33-65 | rejects exactly mismatched lengths and otherwise returns the evaluated root, or the root word that an earlier call of the transaction left; the map it leaves is one the next call accepts |
| Multiproof.HelperCharacterization | src/libraries/Merkle.sol:68-78 | a helper is a node off every path whose sibling is on one |
| Multiproof.MembersAntichain | src/libraries/Merkle.sol:68-78 | for antichain indices no leaf or helper lies below another |
| Multiproof.MembersCut | src/libraries/Merkle.sol:68-78 | each child of a strict ancestor of a member is a member or a strict ancestor of one |
| Multiproof.MultiproofComplete | src/libraries/Merkle.sol:33-65 | true words at the indices and helpers give the true root, for any indices with one in the tree |
| Multiproof.RootSetIff | src/libraries/Merkle.sol:64 | the root slot is set exactly when some index is at least 1 |
| Multiproof.LeafBinding | src/libraries/Merkle.sol:33-65 | for any 256-bit indices: under the true root an effective leaf is the true one, or a collision shows above it |
| Multiproof.LeafInjective | src/libraries/Merkle.sol:33-65 | two submissions with one root agree on every effective leaf, or a collision shows above it |
| Multiproof.IneffectiveLeaf | src/libraries/Merkle.sol:46-60 | a leaf that is not effective can be replaced by any word without changing the root |
| Multiproof.OverRoot | src/libraries/Merkle.sol:43-64 | a root word in the map on entry stays the result unless a leaf is written over it |
| Multiproof.MultiproofBinding | src/libraries/Merkle.sol:33-65 | over antichain indices the true root fixes all leaves and all proof items, or a collision shows |
| Multiproof.MultiproofInjective | src/libraries/Merkle.sol:33-65 | over antichain indices two submissions with one root are the same, or a collision shows |
| Multiproof.SingleHelpers | src/libraries/Merkle.sol:70-89 | the helpers of one index are its branch, in the same order |
| Multiproof.SingleEqualsMulti | src/libraries/Merkle.sol:16-65 | with one index the multiproof accepts the same lengths and gives the same root as the branch proof |
| Verifiers.CalculatorsAgree | src/libraries/Merkle.sol:16-65 | the two calculators return the same result on one leaf, errors included; on index 0, where they part, both results are given |
| Verifiers.BranchCheckersAgree | src/libraries/SSZ.sol:247-295 | the consuming checker accepts exactly when the calculator returns the root, and both reject the same inputs |
| SSZ.VerifyProof | src/libraries/SSZ.sol:247-295 | missing and extra items are told apart by the depth of the index; otherwise the branch root is compared |
| SSZ.LevelKeepsNodes | src/BeaconOracle.sol:118-146 | hashing one level keeps every node above the leaves |
| SSZ.HashLevel | src/BeaconOracle.sol:127-146 | although writes trail reads in one array, the first half becomes the next level |
| SSZ.HashInPlace | src/BeaconOracle.sol:112-154 | for 2^d chunks, d >= 1, the loop returns the Merkle root |
| SSZ.ChunkBranch | src/BeaconOracle.sol:112-154 | every node of the chunk tree is provable against the root at its own index |
| SSZ.RootFixesNode | src/BeaconOracle.sol:112-154 | the root fixes every node of a consistent tree of the same shape, or a collision shows inside |
| SSZ.ChunksDetermined | src/BeaconOracle.sol:112-154 | chunk lists with one root are equal, or a collision shows inside |
| Encoding.BytesReversed | src/BeaconOracle.sol:158-189 | for every word and each of its 32 bytes, byte i of the integer is byte 31 - i of its encoding |
| Encoding.LittleEndianBytes | src/BeaconOracle.sol:158-189 | the same of the chunk that an integer is encoded as |
| Encoding.SwapBlocks | src/BeaconOracle.sol:158-189 | the five swap stages are that reversal |
| Encoding.ToLittleEndian | src/BeaconOracle.sol:158-189 | every byte of the result is the opposite byte of the input |
| Encoding.EncodedAs | src/BeaconOracle.sol:101-110 | a uint64 field is encoded as the 256-bit integer of its value |
| Encoding.ReverseTwice | src/BeaconOracle.sol:158-189 | reversing twice is the identity |
| Encoding.EncodingInjective | src/BeaconOracle.sol:158-189 | different integers have different chunks |
| Encoding.BoolToLittleEndian | src/BeaconOracle.sol:191-193 | a boolean is encoded as the integer 0 or 1 |
| BeaconOracle.ValidatorHashTreeRoot | src/BeaconOracle.sol:82-155 | the Merkle root of the record's eight chunks |
| BeaconOracle.ChunksInjective | src/BeaconOracle.sol:101-110 | the record can be read back from its chunks |
| BeaconOracle.VerifyValidator | src/BeaconOracle.sol:16-29 | true exactly for a proof of the right length that leads from the record's root to the block root |
| BeaconOracle.VerdictReasons | src/BeaconOracle.sol:16-29 | never false; a missing block root and index zero are told apart from a wrong proof |
| BeaconOracle.ValidatorBinding | src/BeaconOracle.sol:15-29 | a record that verifies is the state tree's at its index in each of its eight fields, or a collision shows on the branch or inside |
| BeaconOracle.AcceptedRecordsEqual | src/BeaconOracle.sol:15-29 | two records that verify at one index of one block are equal, or a collision shows |
| BeaconOracle.ValidatorComplete | src/BeaconOracle.sol:15-29 | a record whose root is at its index verifies with the true branch |
| BeaconOracle.RecordComplete | src/BeaconOracle.sol:15-29 | the block's own record, field by field, verifies with the true branch |
| BeaconOracle.FieldOrder | src/BeaconOracle.sol:101-110 | the places of the eight fields |
| BeaconOracle.VerifyFeeRecipient | src/BeaconOracle.sol:32-52 | accepts exactly claims whose two leaves and proof lead to the block root, leftover words of the transaction included |
| BeaconOracle.ClaimReasons | src/BeaconOracle.sol:32-52 | a claim passes exactly with two indices, a block root, a proof of the right length and an accepted claim or the block root left over; the other outcomes are told apart |
| BeaconOracle.AddressLeafBytes | src/BeaconOracle.sol:43 | an address fills the first 20 bytes of its leaf and the rest is zero |
| BeaconOracle.AcceptedClaimsEqual | src/BeaconOracle.sol:31-52 | two claims accepted at the same pair of indices of one block agree on each leaf whose index counts, or a collision shows |
| BeaconOracle.ProposerUnbound | src/BeaconOracle.sol:31-52 | when the proposer's index does not count, the same proof is accepted for every proposer |
| BeaconOracle.RecipientUnbound | src/BeaconOracle.sol:31-52 | when the recipient's index does not count, the same proof is accepted for every recipient |
| BeaconOracle.UnboundProposers | src/BeaconOracle.sol:32-49 | repeated, zero and nested index pairs are such cases |
| BeaconOracle.AcceptedProofsEqual | src/BeaconOracle.sol:31-52 | over antichain indices the whole submission is determined, or a collision shows |
| Proposals.ClaimBinding | src/BeaconOracle.sol:31-52 | an accepted claim carries what the block holds at each of its indices that counts, or a collision shows above it |
| Proposals.ClaimComplete | src/BeaconOracle.sol:31-52 | any two nodes of a block that encode a number and an address are an accepted claim |
| Proposals.ProposerNamedIff | src/SmoothlyPoolV2.sol:102-103 | claims at two indices name the block's own proposer, for every hash, block and claim without collision, if and only if the first is 9 and counts |
| Proposals.RecipientNamedIff | src/SmoothlyPoolV2.sol:102-103 | claims at two indices name the block's own fee recipient if and only if the second is 6433 and counts |
| Proposals.NamedIff | src/BeaconOracle.sol:31-52 | the same for either leaf and any node of the block |
| Proposals.OwnClaim | proofs/index.ts:36-39 | a claim accepted at the indices of the project's own proofs names the proposer of the header and its fee recipient, or a collision shows |
| Proposals.SlotAsProposer | src/BeaconOracle.sol:32-49 | the failing input: at index 8 the slot of any block is accepted as its proposer |
| Proposals.RecipientPath | proofs/index.ts:38 | index 6433 is the path body, execution payload, fee recipient |
| Verifiers.ClaimsInOneTransaction | src/BeaconOracle.sol:45-49 | after an accepted claim a second one of the transaction at indices other than 1 is accepted exactly when its proof has the right length, whatever it claims |
| BeaconOracle.ActiveInterval | src/BeaconOracle.sol:66-74 | a record is active exactly between the starts of its activation and exit epochs, and there is no answer before genesis |
| BeaconOracle.CredentialsAddress | src/BeaconOracle.sol:77-80 | for all 32-byte credentials: leading byte zero is refused, and otherwise the low 160 bits are the address, whatever stands between |
| BeaconHeader.BeaconHeaderHashTreeRoot | src/libraries/SSZ.sol:141-205 | the Merkle root of the header's padded chunks |
| BeaconHeader.HeaderGindices | src/libraries/SSZ.sol:146-155 | slot, proposer, parent root, state root and body root are provable at 8 to 12, the padding at 13 to 15 |
| BeaconHeader.ValidatorPath | eip-4788-prover/dbg/src/main.rs:139-152 | registry, state and header proofs joined are one proof at the pool's index for the validator |
| Ledger.PayoutBounded | src/SmoothlyPoolV2.sol:244-253 | a payout never exceeds the distributable ETH |
| Ledger.RebalancePathIndependent | src/SmoothlyPoolV2.sol:257-266 | any calls before a rebalance that fires leave the state that one call alone reaches |
| Ledger.StepSolvent | src/SmoothlyPoolV2.sol:74-239 | every transaction keeps bonds counted one by one and covered by the balance |
| Ledger.RunSolvent | src/SmoothlyPoolV2.sol:74-239 | the pool is solvent after every run from deployment |
| Transactions.RebalancedWhenDue | src/SmoothlyPoolV2.sol:48-52 | every transaction but a plain transfer rebalances first exactly when more than 21 days have passed |
| Transactions.RebalanceAccrues | src/SmoothlyPoolV2.sol:257-280 | a rebalance raises each validator's claim by its stake for every second not yet counted |
| Transactions.EntriesLaw | src/SmoothlyPoolV2.sol:74-239 | for every transaction, who is in the pool afterwards and with what |
| Transactions.EntryRemoved | src/SmoothlyPoolV2.sol:160-205 | an entry leaves only by its owner's exit, an accepted claim naming another recipient, or an accepted inactive record; 0.1 ETH goes to the owner or the slasher |
| Transactions.EntryAdded | src/SmoothlyPoolV2.sol:79-95 | an entry comes only by a registration with 0.1 ETH and an accepted record |
| Transactions.EntryKept | src/SmoothlyPoolV2.sol:126-159 | an entry that stays changes only by its own withdrawal or update |
| Transactions.UpdateAllocates | src/SmoothlyPoolV2.sol:153-159 | an update takes the old stake out of the active total and puts the proven one into the pending total |
| Transactions.EthConserved | src/SmoothlyPoolV2.sol:59-239 | the balance moves by what comes in and what is paid, and only claims and bonds are paid |
| Transactions.WithdrawalPays | src/SmoothlyPoolV2.sol:106-129 | a withdrawal is by a registered validator for a block since its start, and pays its own address for all its units |
| Transactions.CompletedIsAdmissible | src/SmoothlyPoolV2.sol:74-239 | in any solvent state, what completes met every check |
| Transactions.OwnRecipientSafe | src/SmoothlyPoolV2.sol:189 | with the pool as fee recipient there is no slash in any state |
| Transactions.CompletesIff | src/SmoothlyPoolV2.sol:74-239 | on exact books a careful transaction completes exactly if no check is against it, and otherwise reverts for the first one that is |
| Transactions.RunCompletesIff | src/SmoothlyPoolV2.sol:74-239 | so does every careful transaction of a careful run |
| Transactions.OwnerCanLeave | src/SmoothlyPoolV2.sol:196-205 | on exact books an owner gets out with its bond, unless it withdrew since the last rebalance |
| Transactions.RunWordSized | src/SmoothlyPoolV2.sol:19-43 | on every run, careful or not, all accumulators and units fit their storage words |
| Accounting.RebalanceSums | src/SmoothlyPoolV2.sol:257-266 | one constant-time rebalance accrues what every validator earned on its own, up to the errors |
| Accounting.RebalanceKeepsBooks | src/SmoothlyPoolV2.sol:257-266 | the books carry over, with everyone active after a rebalance that fires |
| Accounting.RegisterKeepsBooks | src/SmoothlyPoolV2.sol:79-98 | a registration enters the sums as pending |
| Accounting.WithdrawKeepsBooks | src/SmoothlyPoolV2.sol:111-129 | a withdrawal takes the claim out of the sums; the books are off by the units it moved its start back |
| Accounting.UpdateKeepsBooks | src/SmoothlyPoolV2.sol:148-159 | an update turns an active entry into a pending one; the books drift by the time it credited early |
| Accounting.ExitKeepsBooks | src/SmoothlyPoolV2.sol:221-239 | an exit takes the entry out of the sums; the split is off by stake booked on the wrong side |
| Runs.StepKeepsBooks | src/SmoothlyPoolV2.sol:74-239 | every completed transaction moves accumulators and sums together |
| Runs.RunKeepsBooks | src/SmoothlyPoolV2.sol:19-43 | on every run the accumulators are the sums over all validators, up to the three tracked errors |
| Runs.StepUnitError | src/SmoothlyPoolV2.sol:111-159 | unit errors never shrink, and stay exactly when the transaction is fair |
| Runs.MayLeaveByStart | src/SmoothlyPoolV2.sol:221-226 | storage tells whether a validator may leave unless its start is the last rebalance; then exactly pending ones may |
| Runs.ErrorsShow | src/SmoothlyPoolV2.sol:19-30 | books that hold with some errors hold without any exactly when the errors are zero |
| Runs.UnitsExactIff | src/SmoothlyPoolV2.sol:25-30 | after a run the settled units are what the validators earned, and the pending units what pending stake still has coming, if and only if its withdrawals were settled and its updates punctual |
| Runs.RunExactIff | src/SmoothlyPoolV2.sol:19-43 | all four accumulators equal the sums over the validators throughout a run if and only if every transaction was careful |
| Counterexamples.LateUpdate | src/SmoothlyPoolV2.sol:151-159 | for every start time, a run whose late update leaves a validator with more units than the pool has |
| Counterexamples.EarlyWithdrawal | src/SmoothlyPoolV2.sol:126 | for every start time, a run whose early withdrawal leaves a validator that cannot exit |
| Counterexamples.EarlyExit | src/SmoothlyPoolV2.sol:224-226 | for every start time, a run whose early exit removes another validator's pending stake and blocks its exit |
| Counterexamples.SomeoneActive | src/SmoothlyPoolV2.sol:83-92 | the registrations and updates of these runs pass the oracle: some record, proof and block root yield them, for any stake and any time from genesis on |
| Counterexamples.SomeoneProposed | src/SmoothlyPoolV2.sol:117-123 | the withdrawals of these runs pass the oracle: for any validator some block confirms that it proposed with the pool as fee recipient |
| Safety.AccumulatorsBounded | src/SmoothlyPoolV2.sol:19-30 | with 64-bit clock, keys and stakes every accumulator is far below 2^256 |
| Safety.StepNoPanic | src/SmoothlyPoolV2.sol:221-280 | a careful transaction on exact books passes all checked arithmetic |
| Safety.NoArithmeticFailure | src/SmoothlyPoolV2.sol:74-280 | so does every careful transaction of a careful run |
| Distribution.PayoutBounds | src/SmoothlyPoolV2.sol:248 | the two roundings pay at most share * E / S and lose less than (E + BPS) / BPS |
| Distribution.PayoutExact | src/SmoothlyPoolV2.sol:248 | the payout is rounded down twice, first to 10^-18 parts of the units, then to wei |
| Distribution.PayoutMonotone | src/SmoothlyPoolV2.sol:248 | a larger share is never paid less |
| Distribution.NoDilution | src/SmoothlyPoolV2.sol:244-253 | no sequence of withdrawals lowers the ETH behind each remaining unit |
| Distribution.ClaimKept | src/SmoothlyPoolV2.sol:244-253 | a validator's claim is the same after any withdrawals of others |
| Distribution.LaterClaimBound | src/SmoothlyPoolV2.sol:244-253 | whoever else withdraws before, a validator is paid more than share * E0 / S0 - E0 / BPS - 1 for the share it had at the start |
| Distribution.RemainingClaimBound | src/SmoothlyPoolV2.sol:244-253 | the same for the claim as it stands when it is made |
| Distribution.ExactDrain | test/SmoothlyPoolV2Internal.t.sol:159-269 | claims that hold all units all complete, in any order, are paid exactly the distributable ETH, and leave neither units nor ETH |
| Distribution.BooksExhausted | src/SmoothlyPoolV2.sol:244-253 | without drift, the claims of all validators with something to claim are paid exactly the distributable ETH |
| SmoothlyPool.SmoothlyPoolV2.constructor | src/SmoothlyPoolV2.sol:54-56 | an empty pool that was last rebalanced at deployment, solvent and with exact books |
| SmoothlyPool.SmoothlyPoolV2.Conclude | src/SmoothlyPoolV2.sol:74-239 | every transaction keeps the contract solvent and its accumulators equal to the sums up to the tracked errors |
| SmoothlyPool.RegisterClaimIff | src/SmoothlyPoolV2.sol:82-87 | a record passes exactly with index in range, credentials not of type 0, in its active period and with a proof to the block root; its balance and address are registered |
| SmoothlyPool.UpdateCheckIff | src/SmoothlyPoolV2.sol:145-148 | an update learns the record's activity exactly from a proof to the block root |
| SmoothlyPool.RegistrationTruthful | src/SmoothlyPoolV2.sol:74-98 | a completed registration enters the balance and address that the block holds at the validator's own place, or a collision shows |
| SmoothlyPool.UpdateTruthful | src/SmoothlyPoolV2.sol:136-164 | a completed update installs the balance that the block holds, or removes a validator that the block has inactive, or a collision shows |
| SmoothlyPool.SmoothlyPoolV2.Register | src/SmoothlyPoolV2.sol:74-98 | one ledger step with the oracle's finding on the record; on success the record was proven and exactly its entry is new; on revert nothing changes; class invariant kept |
| SmoothlyPool.SmoothlyPoolV2.DoEnroll | src/SmoothlyPoolV2.sol:89-95 | helper refinement: the ledger's entry of a new validator, overflow included |
| SmoothlyPool.SmoothlyPoolV2.DoRenew | src/SmoothlyPoolV2.sol:150-159 | helper refinement: the ledger's renewal of an active validator, every checked operation included |
| SmoothlyPool.SmoothlyPoolV2.CheckEntrant | src/SmoothlyPoolV2.sol:83-92 | helper refinement: the checks on a registering record, in order |
| SmoothlyPool.SmoothlyPoolV2.Withdraw | src/SmoothlyPoolV2.sol:106-129 | one ledger step with the verdict on the fee recipient proof; on success the validator's address is paid and its claim spent; on revert nothing changes, transient words included; class invariant kept |
| SmoothlyPool.SmoothlyPoolV2.UpdateValidator | src/SmoothlyPoolV2.sol:136-164 | one ledger step; on success the record was proven, and the entry has its balance or, if inactive, is gone; on revert nothing changes |
| SmoothlyPool.SlashDecision | src/SmoothlyPoolV2.sol:171-193 | a slash goes through exactly when the named recipient is not the pool and the claim is accepted, or, once an earlier call of the transaction left the block root, for every validator |
| SmoothlyPool.SmoothlyPoolV2.SlashBadFeeRecipient | src/SmoothlyPoolV2.sol:171-193 | one ledger step; never succeeds with the pool as fee recipient; on success the entry is gone and the sender has its bond; on revert nothing changes |
| SmoothlyPool.SmoothlyPoolV2.Exit | src/SmoothlyPoolV2.sol:198-205 | one ledger step; on success the sender owned the entry, which is gone, and has its bond; on revert nothing changes |
| SmoothlyPool.SmoothlyPoolV2.RebalancePool | src/SmoothlyPoolV2.sol:209-211 | one ledger step |
| SmoothlyPool.SmoothlyPoolV2.Receive | src/SmoothlyPoolV2.sol:59-67 | a transfer or donation only raises the balance |
| SmoothlyPool.SmoothlyPoolV2.TotalETH | src/SmoothlyPoolV2.sol:214-216 | the balance above the bonds, or a panic when they are not covered |
| SmoothlyPool.SmoothlyPoolV2.DoRebalance | src/SmoothlyPoolV2.sol:257-266 | helper refinement: the ledger's rebalance, overflow included |
| SmoothlyPool.SmoothlyPoolV2.AllocateSmooths | src/SmoothlyPoolV2.sol:270-274 | helper refinement: the ledger's allocation, underflow and overflow included |
| SmoothlyPool.SmoothlyPoolV2.DoExit | src/SmoothlyPoolV2.sol:221-239 | helper refinement: the ledger's exit, every checked subtraction included |
| SmoothlyPool.SmoothlyPoolV2.DoWithdraw | src/SmoothlyPoolV2.sol:244-253 | helper refinement: the ledger's payout, and the new units and balance |

## Left out

- The EIP-4788 call, the SHA-256 precompile, ABI encoding, gas, memory pointers and the pubkey's padded hash: block root, pair hash and pubkey root are inputs.
- Merkle.CalculateMultiMerkleRoot: requires a word map as calls of the same function leave it (`Leftover`, kept by every call and true of the empty map); collisions of storage slots are not modelled.
- ETH transfers are atomic balance changes that succeed or revert, without callbacks; a transfer whose recipient is the pool itself is booked as leaving it, and the reentrancy guard is not modelled.
- SmoothlyPool.SmoothlyPoolV2.Register: the checks made while the record is verified are gathered in one method, in the same order.
- BitTricks.FloorPowerOfTwo: models a build with overflow checks; a release build wraps to zero from 2^63 on.
- Safety.NoArithmeticFailure: assumes at most 2^128 wei in the pool and nondecreasing block times.
- `withdrawalHashTreeRoot` and the duplicates of the hash loop, log2 and byte reversal in `SSZ.sol`: the same algorithms again.
- Events, error selectors, JSON parsing, SSZ container declarations, the TypeScript index helpers and the network clients.

# Verified model of the scitt-cose proof checkers

This project models the proof-checking core of scitt-cose and proves what an accepted
proof means:

* the RFC 6962 / RFC 9162 SHA-256 tree: audit paths and consistency proofs;
* the Merkle Mountain Range of the Checkpointed Local Log: flat-array position math,
  bagged peaks, and the inclusion, consistency, range and checkpoint-chain checks;
* the receipt encoding rule, an octet-level recogniser of shortest-form CBOR;
* receipts: reading, the decision over all candidate proofs, and minting;
* the Go and Rust twins of the tree fold and of the octet walk, in 64-bit integers.

Each checker is written in the form it has in the repository (loops, a shared sibling
stack, a witness cursor, a result object filled in step by step) and proved equal to
a short recursive meaning; completeness and soundness are then theorems about the
meaning.

## Reading guide

| file | contents |
|---|---|
| `Octets`, `Bits` | octet strings, big-endian numbers, powers of two, set bits, alignment |
| `Merkle`, `MerkleExact`, `MerkleVerifier` | the tree: meaning and theorems; exactly which proofs are accepted; the code |
| `MmrPositions`, `MmrHeights`, `CllPositions` | positions of a mountain range: theory; heights; the code |
| `MmrTree`, `MmrBinding`, `MmrSoundness`, `MmrProofs` | what roots commit to and bind, what proofs mean |
| `MmrExact`, `MmrOctets` | exactly which log proofs are accepted; what a log hashes, in octets |
| `CllVerifier`, `CllRange`, `MmrStore` | the log verifier, the range rebuild, the append loop |
| `Cbor`, `CborRoundTrip`, `CborSizes`, `EncodingRule` | values, printing, reading; the round trip; lengths; the walk |
| `CborDomain`, `Utf8` | the rule clause by clause over every item inside an item; heads in octets; section 3 of RFC 3629 |
| `CoseSign1`, `Sign1Laws` | messages: the checks; when a message verifies, by what stands in it |
| `Receipt`, `ReceiptLaws`, `ReceiptOrder`, `ReceiptMeaning`, `ReceiptVerifier` | receipts: the decision; the verdict by what stands in the octets; proof order; meaning; the code |
| `ReceiptMinting`, `MintedOctets` | minting; minted messages and headers in octets |
| `FixedWidth`, `GoMerkle`, `GoEncoding`, `RustMerkle`, `RustEncoding`, `RustReceipt` | the 64-bit twins |

## Hash assumptions

SHA-256 is an arbitrary total function `h` from octet strings to 32 octets. Nothing is
assumed of it globally, since injectivity would be contradictory. Every soundness
theorem assumes `CollisionFree(h, inputs)` for a finite set `inputs` that holds what
the honest tree and the checked run actually hash; read contrapositively, a wrong
conclusion exhibits two of those inputs with one digest. The completeness theorems
give an accepted proof for every list, leaf, prefix and range, so the soundness theorems
are about runs that exist. Completeness and refinement theorems assume nothing of `h`.
Signature verification is an arbitrary predicate over algorithm code point, signed octets
and signature.

The recursive meanings are pinned from outside as well. The exactness theorems
(`MerkleExact`, `MmrExact`) say of every argument whether it is accepted, by naming the
one proof that the list itself gives. `ReceiptLaws` and `Sign1Laws` say it of every
octet string, with labels, limits and digits written out; `Utf8` and `CborDomain` do so
for texts and items. The small cases in octets fix the order of everything that is hashed,
signed or minted.

## Where the code differs from its documentation

The model follows the code in each of these, and a theorem says exactly what holds.

* `scitt_cose/merkle.py:227-232` promises that `verify_consistency` is true only for
  genuine prefixes. For an old size of 0 neither root is looked at
  (`Merkle.EmptyOldTreeUnchecked`), and proof nodes are not checked to be 32 octets long
  (`Merkle.ConsistencyNeedsDigests` is an accepted wrong root for sizes 3 and 4).
  `Merkle.ConsistencySound` gives the exact condition: for an old size above 0, an
  accepted old root is the right one if and only if the node that the verifier starts
  from has 32 octets. That node is the old root itself when the old size is a power
  of two and the first proof node otherwise; the lengths of all other nodes need no check.
* `scitt_cose/receipt.py:226-228` puts the size ceiling at 2^63 and
  `scitt_cose/merkle.py:129-133` the recursion depth at 63; the ceiling in the code is 2^62
  (`scitt_cose/merkle.py:34`) and the depth is at most 62 (`Merkle.PathAtMost62`).
* `verify_range` reads the log's size from the proof, not from the caller
  (`scitt_cose/cll.py:591-594`). `MmrProofs.RangeSound` says when a true root forces that
  size anyway, and `MmrProofs.RangeSizeNotForced` shows that in the remaining case, a
  single leaf at an odd place after the first, it does not. Whatever the size, the bodies
  shown are the true log's last ones, so only their sequence numbers can be wrong.
* `rust/scitt-cose/src/merkle.rs:35` asks only for n > 1 where the loop also needs
  n <= 2^63 (`RustMerkle.GuardFits`); its callers bound n by 2^62. The Go loop needs no
  bound.

## Model

| member | source | states |
|---|---|---|
| Merkle.SplitPointUnique | scitt_cose/merkle.py:45-50 | the split point is the one power of two that is below n and at least n/2 |
| Merkle.PathAtMost62 | scitt_cose/merkle.py:26-34 | within the size ceiling no audit path is longer than 62 |
| Merkle.HonestPathFolds | scitt_cose/merkle.py:79-98 | every leaf's own audit path folds to the tree hash, for any tree |
| Merkle.InclusionComplete | scitt_cose/merkle.py:79-98 | every entry's audit path rebuilds the root of any list within the ceiling |
| Merkle.InclusionSound | scitt_cose/merkle.py:116-176 | domain separation: a fold that reaches the root under any claimed index, size and sibling lengths starts at an entry of the list; at the true size, at that index |
| Merkle.SubproofRebuilds | scitt_cose/merkle.py:188-197 | the recursive proof rebuilds the tree hashes of the first m leaves and of all leaves |
| Merkle.SubproofOmitsRoot | scitt_cose/merkle.py:188-197 | for a power of two the recursive proof is the full one without the old root |
| Merkle.SubproofKeepsRoot | scitt_cose/merkle.py:188-197 | for any other old size the flag changes nothing |
| Merkle.ConsistencyComplete | scitt_cose/merkle.py:200-276 | for every list and all 0 <= m <= n the recursive proof is accepted against the two roots |
| Merkle.NewRootFixesProof | scitt_cose/merkle.py:220-276 | one new root and seeds of one length fix every node of the proof |
| Merkle.SeedsTellRoots | scitt_cose/merkle.py:220-276 | one new root and seeds of different lengths give different old roots |
| Merkle.ConsistencyUnique | scitt_cose/merkle.py:220-276 | two acceptances against one new root agree on the old root if and only if their seeds are equally long |
| Merkle.ConsistencySound | scitt_cose/merkle.py:220-276 | an accepted old root is the root of the first m entries if and only if the seed has 32 octets |
| Merkle.ConsistencyNeedsDigests | scitt_cose/merkle.py:243-276 | an accepted wrong old root for sizes 3 and 4, without a collision |
| Merkle.EmptyOldTreeUnchecked | scitt_cose/merkle.py:236-238 | with old size 0 and an empty proof any two roots are accepted |
| MerkleExact.InclusionExact | scitt_cose/merkle.py:116-158 | against a list's own root and size, an audit path rebuilds the root if and only if it is the list's own path for the entry at that index, up to 2^62 entries |
| MerkleExact.ConsistencyExact | scitt_cose/merkle.py:200-276 | against a list's own root and from a 32-octet seed, accepted if and only if the proof is the recursive one, for every 0 <= m <= n: empty for m = 0 and m = n |
| MerkleExact.InputLayout | scitt_cose/merkle.py:37-42 | prefix octets 0 and 1, then the entry or the left and the right child |
| MerkleExact.SmallRootsInOctets | scitt_cose/merkle.py:61-76 | the roots of up to four entries as nested hashes of literal octets |
| MerkleExact.RootSplits | scitt_cose/merkle.py:45-76 | any list of a power of two and at most as many more splits there |
| MerkleVerifier.LargestPow2Below | scitt_cose/merkle.py:45-50 | the doubling loop finds the split point |
| MerkleVerifier.ExpectedInclusionPathLen | scitt_cose/merkle.py:101-113 | the loop computes the depth of the leaf under the recursive split |
| MerkleVerifier.SiblingStack.Fold | scitt_cose/merkle.py:142-153 | succeeds exactly when there is a sibling for every level, takes those off the end and folds them |
| MerkleVerifier.RootFromInclusionProof | scitt_cose/merkle.py:116-158 | a root exactly when index and size are in range and the length is exact, and then the fold of the path |
| MerkleVerifier.VerifyInclusion | scitt_cose/merkle.py:161-176 | accepts exactly the paths that can be folded and fold to the given root |
| MerkleVerifier.AndWithPredecessor | scitt_cose/merkle.py:250 | the bit test for a power of two |
| MerkleVerifier.ParentSplits | scitt_cose/merkle.py:255-274 | halving the two numbers goes to the parent whose subtree splits at this level's width, on the side that the low bit says |
| MerkleVerifier.AbsorbSibling | scitt_cose/merkle.py:262-274 | one round of the loop extends the top-down reading of the proof by one node |
| MerkleVerifier.Unfinished | scitt_cose/merkle.py:263-276 | while the new number is not 0 the proof read so far is too short |
| MerkleVerifier.Verdict | scitt_cose/merkle.py:263-276 | what the loop knows when it stops decides acceptance |
| MerkleVerifier.VerifyConsistency | scitt_cose/merkle.py:220-276 | the bottom-up bit-shifting loop accepts exactly what the top-down recursion on the split point accepts, for all arguments |
| MmrPositions.NodeCountStep | scitt_cose/cll.py:167-170 | one more leaf adds one node and one per trailing one of the count |
| MmrPositions.NodeCountMonotone | scitt_cose/cll.py:167-170 | node counts grow by at least one per leaf |
| MmrPositions.NodeCountInjective | scitt_cose/cll.py:167-170 | a size is the node count of at most one leaf count |
| MmrPositions.PosInjective | scitt_cose/cll.py:149-170 | different subtrees have different positions |
| MmrPositions.DescendFinds | scitt_cose/cll.py:149-164 | walking down by positions finds exactly the subtree at the position |
| MmrPositions.NodeAtPosOf | scitt_cose/cll.py:149-164 | subtree to position and back is the identity |
| MmrPositions.PeakAt | scitt_cose/cll.py:173-194 | the first i mountains are the mountains of the leaves before the i-th, which sits on a set bit |
| MmrPositions.PeaksAdjoin | scitt_cose/cll.py:173-194 | the mountains cover the leaves from 0 to f without gap or overlap |
| MmrPositions.PeakIndex | scitt_cose/cll.py:173-226 | every mountain is in the list, at the index counted by the bits above it |
| MmrPositions.NotANodeCount | scitt_cose/cll.py:188-189 | a second mountain that is not lower means that no leaf count has this size |
| MmrHeights.HeightsAreSetBits | scitt_cose/cll.py:173-200 | the heights at the mountains' positions are the set bits of the leaf count, each once, descending |
| MmrHeights.LeavesHaveHeightZero | scitt_cose/cll.py:149-209 | a position has height 0 if and only if it is the node count of some leaf index, and then it is that leaf |
| CllPositions.HeightAt | scitt_cose/cll.py:149-164 | the loop returns the height of the subtree at the position |
| CllPositions.Peaks | scitt_cose/cll.py:173-194 | succeeds exactly when the size is below the ceiling and the node count of some leaf count, and returns its mountains' positions |
| CllPositions.LeafCount | scitt_cose/cll.py:197-200 | summing 2^height over the mountains gives the leaf count |
| CllPositions.LeafIndexToPos | scitt_cose/cll.py:203-209 | the position of the leaf, below the ceiling |
| CllPositions.FindContainingPeak | scitt_cose/cll.py:219-226 | the mountain that holds the position; -1 exactly beyond the last one |
| CllPositions.LocatePath | scitt_cose/cll.py:229-246 | from two positions and a height, exactly the siblings, sides and parents between the two subtrees, one per level |
| MmrTree.PrefixRoot | scitt_cose/cll.py:130-143 | the root of a prefix is the bag of its mountains in the longer log |
| MmrTree.NodeStable | scripts/generate_mmr_kat39_vectors.py:88-110 | no node changes when leaves are appended |
| MmrTree.AppendPeaks | scripts/generate_mmr_kat39_vectors.py:88-110 | merging a new leaf with the mountains of equal height gives the mountains of the longer log |
| MmrTree.RootIsAppend | scitt_cose/cll.py:530-630 | the root of a log known by its first mountains and its later leaves is the bag of appending those leaves one by one |
| MmrBinding.InteriorBinds | scitt_cose/cll.py:119-127 | one interior hash fixes both children and, below 2^64, the position |
| MmrBinding.BagBinds | scitt_cose/cll.py:130-143 | one root and one number of mountains fix every mountain |
| MmrBinding.NodesAgree | scitt_cose/cll.py:530-563 | two logs that agree on a subtree's hash agree on everything under it |
| MmrSoundness.SameLeaves | scitt_cose/cll.py:566-630 | two logs of one size and root have the same leaves |
| MmrSoundness.SamePrefix | scitt_cose/cll.py:566-630 | and the given first mountains bag to the root of the true prefix |
| MmrSoundness.SamePeaksAnySize | scitt_cose/cll.py:113-143 | 33-, 64- and 72-octet inputs keep leaves, bags and interior nodes apart: one root means the same mountains even when the sizes are not known to agree |
| MmrSoundness.SizeForced | scitt_cose/cll.py:566-630 | a true root forces the size a range claims when its end is even, two leaves are shown or it starts at the first |
| MmrSoundness.SizeNotForced | scitt_cose/cll.py:566-630 | otherwise there are logs of two sizes with one root that show the same leaf |
| MmrSoundness.ShownAreLast | scitt_cose/cll.py:566-630 | a root shared with a true log fixes the bodies shown as its last ones, with no assumption on the two sizes |
| MmrProofs.ClimbBinds | scitt_cose/cll.py:441-447 | a climb that ends at the true hash of a subtree started at the true hash of the node |
| MmrProofs.InclusionComplete | scitt_cose/cll.py:392-453 | every log's proof for every leaf is accepted |
| MmrProofs.InclusionSound | scitt_cose/cll.py:392-453 | an accepted body digest is the one at its index in the log with that root and size |
| MmrProofs.ConsistencyComplete | scitt_cose/cll.py:456-527 | every log's proof for every prefix is accepted |
| MmrProofs.ConsistencySound | scitt_cose/cll.py:456-527 | rollback detection: accepted against a log's root, the old root is the root of that log's prefix of the old size |
| MmrProofs.ChainSound | scitt_cose/cll.py:819-860 | in a chain of accepted links of any length, every checkpoint is a prefix of the last one's list, sizes never decrease and the log id is one |
| MmrProofs.RangeIsAppend | scitt_cose/cll.py:566-630 | the root that a range check compares is incremental append from the witness, with no assumption on the hash |
| MmrProofs.RangeSound | scitt_cose/cll.py:566-630 | against a true root, whatever size is claimed: the bodies shown are that log's last ones and the witness bags to the root of the rest; the size is forced as SizeForced says; at the true size every body is the one at its sequence number |
| MmrProofs.RangeComplete | scitt_cose/cll.py:566-630 | every log's last bodies from any sequence number, the first included, are accepted with the mountains before them as witness |
| MmrProofs.RangeSizeNotForced | scitt_cose/cll.py:566-630 | for every odd sequence number after the first, an accepted range with a wrong size |
| MmrProofs.RootBindsList | scitt_cose/cll.py:113-143 | two nonempty lists of bodies with one root are the same list, whatever their lengths |
| MmrExact.InclusionExact | scitt_cose/cll.py:392-453 | against a log's own root and size, accepted if and only if the body is the one at the index and every field of the proof is the log's own |
| MmrExact.ConsistencyExact | scitt_cose/cll.py:456-527 | against a log's own root and size, accepted if and only if old root, old size and proof are those of one of its prefixes |
| MmrExact.ChainLinkExact | scitt_cose/cll.py:819-860 | a link to a log's newest checkpoint is accepted if and only if the log ids agree and the older one is that of a prefix with its own proof |
| MmrExact.ChainLinkComplete | scitt_cose/cll.py:819-860 | any prefix's checkpoint under the same log id links |
| MmrExact.RangeExact | scitt_cose/cll.py:566-630 | against a log's own root and last sequence number, accepted if and only if the bodies shown are the last ones and every field of the proof is the log's own |
| MmrExact.NothingAboveCeiling | scitt_cose/cll.py:173-179 | no check accepts a size of 2^50 nodes or more |
| MmrOctets.LeafLayout | scitt_cose/cll.py:113-116 | a zero octet and the body digest |
| MmrOctets.InteriorLayout | scitt_cose/cll.py:119-127 | eight octets of the one-based position, then the left and the right child |
| MmrOctets.BagsInOctets | scitt_cose/cll.py:130-143 | zeros for no mountain, the mountain alone, and the right ones in front of the left |
| MmrOctets.SmallRootsInOctets | scitt_cose/cll.py:113-143 | the roots of logs of up to four leaves as nested hashes of literal octets |
| CllVerifier.RootFromPeaks | scitt_cose/cll.py:130-143 | popping and pushing pairs computes the right-to-left bag |
| CllVerifier.FoldSteps | scitt_cose/cll.py:441-447 | folding the located steps climbs from the node to the mountain |
| CllVerifier.VerifyInclusion | scitt_cose/cll.py:392-453 | accepts exactly what InclusionAccepts says, for all arguments |
| CllVerifier.VerifyConsistency | scitt_cose/cll.py:456-527 | accepts exactly what ConsistencyAccepts says, for all arguments |
| CllVerifier.VerifyCheckpointChain | scitt_cose/cll.py:819-860 | one log, no smaller size, and an accepted consistency proof |
| CllRange.ReconstructRangeSubtree | scitt_cose/cll.py:530-563 | rebuilds the subtree's hash, fails exactly when the witness runs out, and moves the cursor by one per mountain before the range |
| CllRange.VerifyRange | scitt_cose/cll.py:566-630 | accepts exactly when the fields agree, the witness has popcount(from_seq - 1) digests and the described log has the root |
| MmrStore.StoreAt | scripts/generate_mmr_kat39_vectors.py:88-113 | the store holds at each position the post-order tree hash with its own position committed |
| MmrStore.StoreGrows | scripts/generate_mmr_kat39_vectors.py:88-110 | an append keeps all earlier nodes and adds one node of each height 0, 1, ... up to the trailing ones of the leaf count |
| MmrStore.CarryGuard | scripts/generate_mmr_kat39_vectors.py:97 | comparing the next mountain's height is counting trailing ones |
| MmrStore.NodeStore.constructor | scripts/generate_mmr_kat39_vectors.py:86 | an empty store |
| MmrStore.NodeStore.AddLeaf | scripts/generate_mmr_kat39_vectors.py:88-110 | the append loop keeps the store equal to the array of its leaves, for any number of appends; at the size ceiling it refuses and changes nothing |
| CborRoundTrip.HeadSound | scitt_cose/_encoding_rule.py:43-63 | an accepted head is the shortest form of its argument |
| CborRoundTrip.HeadComplete | scitt_cose/_encoding_rule.py:43-63 | every shortest-form head is accepted and read back |
| CborRoundTrip.ItemSound | scitt_cose/_encoding_rule.py:66-117 | what is read at a position is the printing of a value in the domain |
| CborRoundTrip.ItemComplete | scitt_cose/_encoding_rule.py:66-117 | the printing of a value in the domain is read back, wherever it stands |
| CborRoundTrip.KeyInjective | scitt_cose/_encoding_rule.py:90-107 | map keys with equal octets are equal |
| CborRoundTrip.AcceptedIffPrinted | scitt_cose/_encoding_rule.py:35-40 | an octet string is accepted if and only if it prints some value of the domain |
| CborRoundTrip.ReadBack | scitt_cose/_encoding_rule.py:35-40 | printing then reading gives the value and the whole length |
| CborRoundTrip.PrefixFree | scitt_cose/_encoding_rule.py:35-40 | the value is unique, and no accepted string is a proper prefix of another |
| CborDomain.DomainIsItemRule | scitt_cose/_encoding_rule.py:66-117 | a value is in the domain if and only if every item in it, at any depth, obeys every clause of the rule at its level |
| CborDomain.HeadInOctets | scitt_cose/_encoding_rule.py:43-63 | the one, two, three, five or nine octets of the head of every argument |
| CborDomain.InitialOctets | scitt_cose/_encoding_rule.py:66-117 | the initial octet of every kind of item |
| Utf8.ValidIffEncoded | scitt_cose/_encoding_rule.py:82-86 | octets are a valid text if and only if they are the octets, by section 3 of RFC 3629, of some sequence of scalar values |
| Utf8.EncodingInjective | scitt_cose/_encoding_rule.py:82-86 | and of one sequence only |
| EncodingRule.ReadHeadAt | scitt_cose/_encoding_rule.py:43-63 | reads the head that the definition reads |
| EncodingRule.Item | scitt_cose/_encoding_rule.py:66-117 | ends where the definition ends; entered at most once per octet left plus one, whatever counts are declared |
| EncodingRule.Check | scitt_cose/_encoding_rule.py:35-40 | one item of the rule and nothing after it |
| EncodingRule.MapOrderFree | scitt_cose/_encoding_rule.py:90-107 | permuting the entries of an admitted map keeps it admitted and its printing as long |
| CoseSign1.CheckCriticalHeaders | scitt_cose/cose_sign1.py:273-301 | section 3.1 of RFC 9052: accepts exactly nonempty lists of present, understood integer or text labels, or none |
| CoseSign1.SigStructureInjective | scitt_cose/cose_sign1.py:98-104 | the signed octets determine the protected header and the payload |
| CoseSign1.VerifySign1 | scitt_cose/cose_sign1.py:304-406 | verifies exactly when every structural check and the signature over the chosen payload hold, and returns those parts |
| Sign1Laws.CritIsLaw | scitt_cose/cose_sign1.py:273-301 | the check of critical headers passes if and only if whatever stands under label 2 is a nonempty array of integer or text labels, each a key of the map and understood |
| Sign1Laws.VerifiesExactly | scitt_cose/cose_sign1.py:304-406 | a message verifies if and only if it is at most 10 MiB and prints four elements whose header, critical labels, payload and signature are as demanded |
| Sign1Laws.SigStructureInOctets | scitt_cose/cose_sign1.py:98-104 | the signed octets: twelve literal ones, the protected header, an empty string and the payload |
| Receipt.ProofOfUnique | scitt_cose/receipt.py:206-263 | a proof blob encodes one candidate |
| Receipt.ShapeUnique | scitt_cose/receipt.py:460-555 | a receipt has one reading |
| Receipt.FirstSigned | scitt_cose/receipt.py:570-606 | the first candidate whose root the signature holds over |
| Receipt.TreeDecision | scitt_cose/receipt.py:557-606 | ok if and only if every blob is well formed and some rebuilt root verifies; failed_at names signature exactly when all blobs are well formed and none does |
| Receipt.SameProofsDecide | scitt_cose/receipt.py:557-606 | ok, failed_at and the claims depend only on which blobs there are |
| ReceiptOrder.OrderIrrelevant | scitt_cose/receipt.py:445-671 | two receipts whose octets print one message but for a permutation of the proofs array: both have a shape or neither has, and outside vds 2 ok, failed_at and claims are the same |
| ReceiptOrder.PermutedMessageLength | scitt_cose/cose_sign1.py:240-241 | the permuted message is as long, so the size limit decides both alike |
| ReceiptOrder.ShapeHasFrame | scitt_cose/receipt.py:460-555 | every receipt with a shape prints such a message |
| ReceiptLaws.UnreadIsMalformed | scitt_cose/receipt.py:445-555 | octets that are not a receipt, labels and limits written out, fail at structure and report nothing |
| ReceiptLaws.TreeVerdict | scitt_cose/receipt.py:557-606 | under vds 1: the first proof whose root the signature holds over is the one reported, and the first proof of all when none is; claims are the header's |
| ReceiptLaws.CcfVerdict | scitt_cose/receipt.py:608-632 | under vds 2: the root is what the first proof gives for the leaf; ok if and only if there is one and the signature holds over it |
| ReceiptLaws.OtherVdsIsMalformed | scitt_cose/receipt.py:634-641 | under any other structure, or none, a receipt fails at structure |
| ReceiptLaws.OkMeansSigned | scitt_cose/receipt.py:445-671 | under either structure, ok means that the signature holds over the reported root under the receipt's own header |
| ReceiptLaws.UnknownCriticalLabel | scitt_cose/receipt.py:445-671 | a critical label outside 1, 2, 15 and 395, for vds 2 also 4 and ccf.v1, makes a receipt fail at structure |
| ReceiptLaws.ClaimsAre | scitt_cose/receipt.py:643-671 | issuer, subject and issued-at are what stands under 15 and then 1, 2 and 6; every other unprocessed header is surfaced |
| Receipt.NothingLeaks | scitt_cose/receipt.py:411-442 | claims are set only when ok; failed_at is set exactly when not ok; a structural failure reports nothing else |
| ReceiptMeaning.SignedLeaf | scitt_cose/receipt.py:570-606 | one candidate that the signature holds over proves membership in one of the log's lists |
| ReceiptMeaning.VerifiedMeansLogged | scitt_cose/receipt.py:445-671 | end to end: if the key verifies only over Sig_structures of the log's roots, a verified vds 1 receipt means that the leaf is an entry of one of the log's lists |
| ReceiptMinting.MintedVerifies | scitt_cose/receipt.py:325-408 | a minted receipt verifies for its entry with its own root, size, index and claims, up to the message size limit and not beyond |
| ReceiptMinting.BuildReceipt | scitt_cose/receipt.py:325-408 | refuses exactly an index out of range, another entry, an attached payload or an algorithm other than -8, -7 and -35, and otherwise returns those octets |
| MintedOctets.MessageInOctets | scitt_cose/receipt.py:399-408 | a minted message in octets around its three byte strings |
| MintedOctets.ShortHeaderInOctets | scitt_cose/receipt.py:385-398 | the seven octets of the shortest protected header |
| MintedOctets.FullHeaderInOctets | scitt_cose/receipt.py:385-398 | the octets of a header with every field, in their order |
| MintedOctets.SmallestBlobInOctets | scitt_cose/receipt.py:206-209 | the four octets of the proof of an only entry |
| ReceiptVerifier.DecodeInclusionProof | scitt_cose/receipt.py:231-263 | succeeds exactly on encodings of candidates that can be folded |
| ReceiptVerifier.CheckShape | scitt_cose/receipt.py:460-555 | the checks in order succeed exactly on receipts with a shape |
| ReceiptVerifier.TryCandidates | scitt_cose/receipt.py:570-606 | fills in the first candidate that verifies, or the first candidate as a diagnostic; a decoded candidate always has a root, so the branch for none is dead |
| ReceiptVerifier.SurfaceClaims | scitt_cose/receipt.py:643-671 | copies exactly the protected header's claims and sets ok |
| ReceiptVerifier.VerifySteps | scitt_cose/receipt.py:445-671 | fills the result with the decision, structural failures not yet named |
| ReceiptVerifier.VerifyReceipt | scitt_cose/receipt.py:411-442 | the result object is the decision, for all octets |
| FixedWidth.NextOctet | scitt-cose-go-verify/encoding.go:78-81 | accumulating up to eight octets stays within 64 bits and reads the big-endian number |
| GoMerkle.LargestPow2Below | scitt-cose-go-verify/main.go:546-559 | exact for every int64 above 1, with no overflow on any int64 |
| GoMerkle.ExpectedInclusionPathLen | scitt-cose-go-verify/main.go:563-576 | the leaf's depth; terminates without overflow on every pair of int64 |
| GoMerkle.CapturedSiblings.Fold | scitt-cose-go-verify/main.go:597-619 | the closure over a shared slice folds what the reference folds |
| GoMerkle.RootFromInclusionProof | scitt-cose-go-verify/main.go:581-626 | the same root or refusal as the unbounded reference, for all int64 arguments |
| GoEncoding.EncodingHead | scitt-cose-go-verify/encoding.go:51-87 | reads the head that the definition reads, in uint64 without loss |
| GoEncoding.EncodingItem | scitt-cose-go-verify/encoding.go:91-162 | ends where the definition ends |
| GoEncoding.CheckEncoding | scitt-cose-go-verify/encoding.go:38-47 | accepts exactly what the Python walk accepts |
| RustMerkle.GuardFits | rust/scitt-cose/src/merkle.rs:36-42 | the doubling guard fits 64 bits at every step if and only if n <= 2^63 |
| RustMerkle.LargestPow2Below | rust/scitt-cose/src/merkle.rs:36-42 | for every u64: overflows if and only if n > 2^63, and otherwise finds the split point |
| RustMerkle.ExpectedInclusionPathLen | rust/scitt-cose/src/merkle.rs:46-60 | for every pair of u64: overflows if and only if the size is above 2^63, and otherwise gives the leaf's depth |
| RustMerkle.BorrowedSiblings.Fold | rust/scitt-cose/src/merkle.rs:85-104 | the recursion over a borrowed vector folds what the reference folds |
| RustMerkle.RootFromInclusionProof | rust/scitt-cose/src/merkle.rs:69-110 | the same root or refusal as the unbounded reference, for all u64 arguments |
| RustEncoding.ReadHeadAt | rust/scitt-cose/src/encoding.rs:39-59 | reads the head that the definition reads, in u64 without loss |
| RustEncoding.Item | rust/scitt-cose/src/encoding.rs:62-119 | ends where the definition ends |
| RustEncoding.Check | rust/scitt-cose/src/encoding.rs:29-35 | accepts exactly what the Python walk accepts |
| RustReceipt.DecodeInclusionProof | rust/scitt-cose/src/receipt.rs:171-226 | reads exactly the candidates that the Python verifier reads; narrowing to u64 loses nothing |
| RustReceipt.TryCandidates | rust/scitt-cose/src/receipt.rs:472-506 | the fold of a decoded candidate always yields a root, so the expect never panics, and the report is the Python verifier's |

## Left out

- Merkle.ConsistencySound: is about old sizes above 0; for 0 the verifier compares no root and Merkle.EmptyOldTreeUnchecked says so.
- MmrProofs.RangeSound: says nothing of an empty log, whose root is not a hash, and needs the true node count below 2^64, where the eight octets of a committed position end.
- MmrProofs.RootBindsList: needs node counts below 2^64 for the same reason, and nonempty lists.
- ReceiptMinting.BuildReceipt: takes text as valid UTF-8, an issued-at time within the rule's integers and at most 2^62 entries; a larger integer would be printed as a bignum, which the verifier refuses.
- ReceiptMinting.MintedVerifies: has the printing of module Cbor in the place of the CBOR library's encoder; both write shortest forms and map entries in insertion order.
- ReceiptOrder.OrderIrrelevant: says nothing of the verdict under vds 2, where the verifier reads the first proof only.
- CoseSign1.VerifySign1: reads messages by the encoding rule; a message outside the rule that the library decoder and the re-encoding length test admit is refused here. Receipts meet the rule before they are verified, so their decision is not affected.
- Receipt.ShapeUnique: reads values as the encoding rule defines them; the decoders of cbor2, ciborium, fxamacker/cbor and go-cose and the re-encoding length test of `strict_decode` are not part of this model.
- RustReceipt.TryCandidates: the Rust header checks before the loop and the result fields of its own (grade, witness time) are not modelled.
- RustEncoding.Check: takes usize to be 64 bits wide.
- RustMerkle.BorrowedSiblings.Fold: is for sizes up to 2^63, where the split does not overflow; its one caller admits 2^62.
- CllRange.ReconstructRangeSubtree: covers subtrees that start within the range's end, which is the log's last leaf in every call.
- The CCF proof walk (vds 2) is an arbitrary partial function from blob and claim digest to a root: a straight accumulator with no position math.
- SHA-256, Ed25519, ECDSA and key loading: the hash is an arbitrary function and the signature check an arbitrary predicate.
- Hex, base64 and JSON text layers, `isinstance` tests, exceptions as such and error wording: octets and optional results are modelled.
- A claimed tree size or leaf index as a fact about an RFC 6962 log: its root does not bind them, so membership is what is proved.
- `Checkpoint` digests and signing bodies, `witness_status_line`, the leaf and range wrappers around the checks: field formatting with no hard property.
- `statement.py`, `hosted_profiles/`, `viewer/`, `demo/`, `interop/`, the command lines and the other vector generators: headers, user interface and input or output.
- The receipt paths of the Go verifier outside the fold and the walk: they run on library decoders.

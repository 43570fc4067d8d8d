# A verified model of the vhcwallet core

vhcwallet is a light wallet. It follows the heaviest chain of headers its peers
announce, finds its transactions with compact block filters, checks the
difficulty of every header, discovers its addresses after a restore, and hands
out new ones. This project models those parts in Dafny and proves what they are
for. `dafny verify dfyconfig.toml` checks everything.

## The parts

**Chain selection** (`Headers`, `BlockSets`, `RootedTrees`, `Forests`,
`SidechainTrees`, `Sidechains`, `MainChains`, `Wallets`, `Validity`, `Syncers`). Headers
that are not in the main chain form a forest of rooted trees. `BlockSets` says what a
set of blocks determines on its own: branches, roots and work. The classes
`RootedTree` and `SidechainForest` are the source's objects, updated in place;
their values are shown to be what the block set determines, which is why arrival
order cannot matter. `Wallet.EvaluateBestChain` and `Wallet.ChainSwitch` follow
the source step by step. `MainChains.RoundReachesHeaviest` is the main result:
after one round of evaluating, switching, pruning and re-adding, no sidechain block
of the forest carries more work than the tip. `Syncer` holds the critical sections
of the network code, together with a client that replays tip notifications. It
validates every branch before a switch, so each block of its main chain has the
difficulty and price its history requires (`Validity`).

**Rescans and the marker** (`Markers`, `MarkerRuns`, `RescanStarts`, `Announced`,
`ValidRuns`, and methods of `Wallet`). The marker is the last block whose
transactions were processed. `MarkerRuns` is a transition system in which headers
arrive, chains switch, and a rescan starts anywhere up to the rescan point, reads,
scans and finishes batches, in any order. Its invariant gives marker safety in every
run. `RescanStarts` says what other starts do, `Announced` compares the tip with all
headers ever received, and `ValidRuns` is about runs with validated switches.

**Filter scanning** (`TxScans`, `Committed`, `Rescans`). The plain scan of a list of
blocks is a function on values. `Committed` says what a block's filter commits to.
`Rescan` and `ScanChain`, which fetch only blocks whose filters match and later test
only new entries, are proved to find what scanning exactly the blocks shown by their
filters finds; and that is the plain scan's result if and only if the filters show
what is of interest (`AllShown`).

**Difficulty** (`Powers`, `Compacts`, `Retargets`, `StakePrices`, `Difficulties`,
`ChainLaws`). Every rule is a function of a history of headers. The code reads headers
from an unattached branch and from the database below it; `Serves` says that such a
source answers from a history, and each method is proved against the history.
`ChainLaws` says what a main chain of valid blocks then looks like, header by header.

**Address discovery** (`Gaps`, `AddrFinders`, `Payments`, `Discoveries`). Bisection over
segments of indexes in 32-bit arithmetic, for all branches at once, for one
branch, and for accounts. `Payments` says which addresses a block pays to and which of
these its filter commits to.

**Address buffers** (`AddressBuffers`, `AddressOrder`, `Addresses`). Cursors, database
rows and watched addresses, one branch at a time and for all accounts. `AddressOrder`
says which addresses are handed out one after the other, and when one is reused.

**Smaller state machines** (`Locators`, `Lockers`, `VoteBits`, `PgpWords`,
`Seeds`).

## Assumptions

- A hash determines its header (`World.headerOf`).
- A header that names a known header as its previous block is one higher
  (`Linked`), and every known header carries some work (`PositiveWork`).
  `Compacts.CalcWorkPositive` says when the second holds. The forest classes need
  neither; the first is what makes the internal consistency failure of
  `AddBlockNode` unreachable.
- Heights are below 2^31, so conversions between signed and unsigned heights are
  not modelled.
- A block's filter was built from the block as `blockcf.Regular` does. It matches
  every entry it commits to, and it may match others falsely; an empty filter
  belongs to a block that commits to nothing. Peers deliver the blocks asked for, which the
  source checks by hash, Merkle root and filter.
- `LoadTxFilter` is not called while a rescan runs, and succeeds. The address
  properties are about a wallet that is connected.
- In the runs of `MarkerRuns` a rescan starts at or below the present rescan point.
  The code makes sure of this only up to reorganizations (see below).
- Go's sort gives some order by height, and map iteration some order; nothing
  depends on which.
- Child keys are never invalid, and addresses are looked up by their scripts, which
  differ. The gap limit is at least one.
- No known block has the zero hash, which the genesis block names as its parent.

## Where the code does less than its comments or the obvious reading say

- A block's filter commits to output scripts, and to none of the inputs of votes and
  revocations. A vote of a wallet that only holds the voting right, or a payment to a
  public key of ours, is found by the plain scan but not by one through filters
  (`VoteNotShown`, `PaymentNotShown`). `Rescan` and `ScanChain` state the exact
  condition; `OrdinaryVisible` names the transactions that meet it.
- The address search reads as many block filters as there are blocks above its
  starting block, beginning with that block, so the tip is not searched
  (wallet/discovery.go:173-174), although it is documented to search all blocks
  from the starting block on. An index paid in the tip alone is missed
  (`TipMissed`).
- The address search sees what filters commit to, and no filter commits to a ticket's
  submission output, which pays the voting address. A voting address that is the last
  used one is missed although its ticket is below the tip (`VotingAddressMissed`).
  Submissions can also hide an index that is committed: where they alone fill what
  would otherwise be a gap, the search can pass over the segment above it, for every
  gap limit (`TicketsHideUse`). `AddrFinder.Find` ensures `FoundOfAll`, which says
  exactly when the result is right for all indexes that any block pays to, if the
  committed ones leave no gap; and in every case the result is that of bisecting the
  branch alone over the committed ones (`Bisected`). The server knows of all uses, so
  that its search can differ (`SearchesAgree`).
- A rescan is started at a height: at startup that of a rescan point read before
  address discovery (spv/sync.go:1148-1192), on request any
  (rpc/legacyrpc/methods.go:2372-2386). Afterwards nothing is pending, and all is well
  exactly if everything below the start had been scanned (`RescannedExactly`). A start
  above the rescan point passes over its block (`StartAbovePoint`), and so does a
  height read before a switch to a branch that forks below it (`StaleStart`). As long
  as the block below a point that was read stays in the main chain, its height stays
  safe (`PointStays`).
- `ChainSwitch` moves the marker unless that would skip a block, but its comparison
  (wallet/chainntfns.go:165) is off by one: called with transactions while exactly one
  block below the branch is unprocessed, it passes over that block (`UnguardedSkipsOne`).
  `UnguardedExactly` says when such a call does no harm. The syncer supplies
  transactions only if nothing is pending, so its runs are safe (`MarkerSafety`).
- If recording a returned address is put off, and watching catches up with the database
  before it is done, the address is handed out again, exactly if the database had a
  returned index above its last used one (`DeferredReuse`). Recorded at once, no address
  is reused (`NeverReused`).
- A switch forgets the whole tree of the new chain, its siblings included. A forgotten
  branch can grow past the tip unnoticed (`ForgottenBranch`); the tip is heaviest among
  all announced headers exactly if no heavier one descends from a forgotten one
  (`HeaviestExactly`).
- If the gap limit does not divide 2^31, the last partial segment is never
  searched (`PartialSegmentMissed`, for every such gap limit);
  `ExactUnlessPartial` says exactly when the result is right. The account search
  includes that segment.
- With an account gap limit of one, the 32-bit middle of the account search wraps
  around once the very last account is found used (`AccountMiddle`). The search then
  starts over, and never ends if all accounts on its way are used (`NeverEnds`);
  otherwise it ends (`FindLastUsedAccount`).
- The target before limits can stay the same although windows were off target
  (`CancellingWindows`, and `CancellingHeaders` for a history of headers);
  `StaysExactlyWhen` gives the exact condition.
- The supply estimate is the sum of subsidies exactly if the first block's subsidy is
  not reduced (`EstimateIsSum`), and grows from height zero on exactly if the first
  block is not estimated below zero (`EstimateGrowsExactly`); a reduction interval
  above one implies both.
- The ticket price is converted to 64 bits before it is clamped, so a price that
  does not fit can come out at the minimum (`OverflowExample`). `NextPriceIsDcp0001`
  and `PriceMonotone` say exactly when that does no harm.
- Cached vote bits follow storage over any sequence of calls, but two calls that
  overlap can leave them apart, exactly if they conflict in some agenda
  (`OverlappingCalls`, with `OverlappingCallsDisagree` for an instance).
- The genesis block is a locator only at heights up to 8 and at 8 plus a power of two
  (`GenesisIsLocator`; `GenesisSkipped` for an instance).

## Model

| member | source | states |
|---|---|---|
| BlockSets.BranchIsChain | wallet/sidechains.go:86-105 | The blocks from a root up to a block are parent-linked, one height apart, and all in the forest: what following parent links yields |
| BlockSets.ChainIsBranch | wallet/sidechains.go:86-105 | Conversely every parent-linked run of forest blocks from a root is the branch of its last block, so work sums do not depend on how a run was built |
| BlockSets.BranchUnchanged | wallet/sidechains.go:195-232 | Dropping whole trees or adding blocks elsewhere changes neither the branch nor the root of a block that stays |
| BlockSets.BranchJoined | wallet/sidechains.go:187-211 | When an orphan root gains its parent, every branch of its tree becomes the parent's branch followed by the old one, work sums included |
| RootedTrees.AttachKeepsStructure | wallet/sidechains.go:86-105 | Attaching a new child to any node keeps a tree's parent links, heights, work sums, and its tips exactly the childless non-root nodes |
| RootedTrees.TreeHeights | wallet/sidechains.go:86-105 | The root is strictly the lowest block of its tree |
| RootedTrees.TreeAgrees | wallet/sidechains.go:155-214 | A tree's root and its recorded work sums are those the set of forest blocks determines on its own |
| RootedTrees.TipAbove | wallet/sidechains.go:111-147 | Above every node there is a tip with at least its work sum, so a best tip is best over all nodes |
| RootedTrees.NodeDetermined | wallet/sidechains.go:155-214 | The recorded node of a block, its chain of parent links included, is determined by the block set |
| RootedTrees.TreeDetermined | wallet/sidechains.go:155-214 | Two well-formed trees with the same root in the same block set have the same nodes, parent links, work sums and tips |
| Forests.TreeIsComponent | wallet/sidechains.go:155-214 | A tree holds exactly the forest blocks whose branch starts at its root: a maximal connected set of known headers |
| Forests.RootsAreTreeRoots | wallet/sidechains.go:155-214 | The tree roots are exactly the forest blocks without a parent in the forest |
| Forests.ForestDetermined | wallet/sidechains.go:155-214 | Arrival order does not matter: well-formed forests over the same blocks have as many trees, with the same roots, children, parents, work sums and tips |
| Forests.AbsorbPending | wallet/sidechains.go:188-211 | Merging an orphan tree below the block its root names keeps the trees disjoint and leaves that block the only parent any root may still have |
| Forests.PendingDone | wallet/sidechains.go:187-211 | Once no root names the new block, no root has its parent in the forest: the forest is well formed again |
| Forests.LinkedNeverMisplaced | wallet/sidechains.go:200-206 | If a header that names a known header is one higher, adding any known block finds no badly placed orphan root |
| Forests.MisplacedExample | wallet/sidechains.go:200-206 | Without that condition it does happen: a header of the wrong height makes the internal consistency failure reachable |
| SidechainTrees.RootedTree.DuplicateNode | wallet/sidechains.go:74-80 | True exactly for the blocks of the tree |
| SidechainTrees.RootedTree.MaybeAttachNode | wallet/sidechains.go:86-105 | Attaches exactly when the parent is in the tree one height below; the new value is the tree with that child, otherwise nothing changes |
| SidechainTrees.RootedTree.Best | wallet/sidechains.go:111-147 | Returns a root-first parent-linked branch of consecutive heights whose work no node of the tree exceeds, together with that work, whether memoized or recomputed; only the memo changes |
| SidechainTrees.RootedTree.BestTip | wallet/sidechains.go:120-135 | The tip taken carries the greatest work sum of all tips, or is the root if there are none |
| SidechainTrees.BestTipIsBestNode | wallet/sidechains.go:111-147 | A tip heaviest among the tips is heaviest among all nodes |
| SidechainTrees.FillChain | wallet/sidechains.go:136-144 | Filling a slice from its end by parent links gives the branch from the root to the tip |
| SidechainTrees.SortedNodes | wallet/sidechains.go:188-194 | Dumping and sorting an orphan tree lists every node once, lowest first |
| SidechainTrees.AttachAll | wallet/sidechains.go:188-209 | Reattaching in height order succeeds, and then the tree gained exactly the orphan tree's blocks, unless the orphan root names the new block at a wrong height |
| Sidechains.PlacedInTree | wallet/sidechains.go:166-171 | Attaching a block to the tree that holds its parent adds just that block to the forest, and it was in no other tree |
| Sidechains.SidechainForest.PlaceNode | wallet/sidechains.go:157-182 | The first loop reports a duplicate, attaches to the one tree that holds the parent, or starts a new tree; only the new block may then be some root's parent |
| Sidechains.SidechainForest.MergeOrphans | wallet/sidechains.go:184-212 | The second loop merges every tree whose root names the new block, and fails exactly if such a root is badly placed |
| Sidechains.SidechainForest.AddBlockNode | wallet/sidechains.go:155-214 | Adds exactly the given block, keeps the forest well formed, reports false exactly for a duplicate, and reaches the internal consistency failure exactly if the block is misplaced |
| Sidechains.SidechainForest.Prune | wallet/sidechains.go:218-229 | Keeps exactly the blocks of trees whose root is not more than the pruning depth behind the main chain tip, and keeps the forest well formed |
| Sidechains.SidechainForest.PruneTree | wallet/sidechains.go:232-241 | Removes exactly the tree with the given root, if there is one |
| MainChains.TotalOfBranch | wallet/sidechains.go:265-285 | The total work of a sidechain block is that of its fork point on the main chain plus the work of its branch: what the subtraction and addition of work computes |
| MainChains.SwitchAddsWork | wallet/chainntfns.go:111-114 | A best choice outweighs the main chain blocks it replaces, so it passes the switch's own work check, and total work strictly increases |
| MainChains.SwitchKeepsInv | wallet/chainntfns.go:68-210 | After the switch, the pruning and the return of the removed blocks, no forest block is in the main chain and main chain and forest stay consistent |
| MainChains.ForgetsExactly | wallet/chainntfns.go:203-204 | Block by block: a switch keeps in the forest exactly the detached blocks and the trees, other than the new chain's, whose root is not more than the pruning depth below the new tip |
| MainChains.RoundReachesHeaviest | spv/sync.go:884-925 | One round reaches the heaviest known chain: after evaluating, switching, pruning and re-adding every removed block, no known sidechain block carries more work than the new tip |
| Wallets.Wallet.BlockInMainChain | wallet/udb/txmined.go:828-850 | Tells membership in the main chain |
| Wallets.Wallet.BranchGain | wallet/sidechains.go:266-285 | The work a branch adds: its own, less that of the main chain blocks above its fork point |
| Wallets.Wallet.EvaluateTree | wallet/sidechains.go:256-286 | An orphan tree adds nothing; otherwise the best branch of the tree and its exact gain |
| Wallets.Wallet.EvaluateBestChain | wallet/sidechains.go:246-292 | Returns a sidechain branch that adds work and that no known sidechain branch beats, or nothing exactly if no known sidechain block carries more work than the tip |
| Wallets.Wallet.CollectDetached | wallet/chainntfns.go:92-110 | The blocks to detach are the main chain blocks from the fork on, lowest first, with their total work |
| Wallets.Wallet.AttachBlocks | wallet/chainntfns.go:125-141 | Attaching block by block yields the main chain cut at the fork with each new block appended, passing over blocks already there, together with the recorded headers; it fails exactly if some block neither extends the chain nor is in it |
| Wallets.Wallet.PrepareSwitch | wallet/chainntfns.go:68-141 | For any blocks with their own headers, parent-linked or not: a switch fails exactly if they do not outweigh what they replace, begin at genesis, or cannot be attached; otherwise it gives the detached blocks, the new chain and the new headers |
| Wallets.LinkingBranch | wallet/udb/txmined.go:191-262 | A parent-linked branch is attached as a whole if its first block is a child of the block kept below it, and refused otherwise |
| Wallets.AcceptedBranch | wallet/chainntfns.go:68-141 | For a branch, being accepted by a switch is exactly to extend the main chain at its fork and to outweigh what it replaces |
| Wallets.LinkingOk | wallet/udb/txmined.go:191-262 | Blocks that can be attached, in whatever order they come, leave a parent-linked main chain from the same genesis block that holds all of them |
| Wallets.LinkingTwice | wallet/udb/txmined.go:191-262 | Attaching blocks that are attached already changes nothing |
| Wallets.Wallet.MoveMarkerToTip | wallet/chainntfns.go:152-173 | With transactions supplied the marker moves to the new tip unless that would skip a block past the rescan point; the absence of a rescan point is an error |
| Wallets.Wallet.ChainSwitch | wallet/chainntfns.go:68-210 | The whole effect of a switch on main chain, recorded headers, marker, forest and tip notification; on failure all of these stay as they were |
| Wallets.BestChoiceConnects | wallet/chainntfns.go:75-141 | The result of evaluating the best chain always satisfies every check of the switch |
| Wallets.SwitchStaysValid | wallet/udb/txmined.go:191-262 | Attaching accepted blocks keeps recorded headers, main chain and marker consistent |
| Wallets.ConnectedMain | wallet/chainntfns.go:125-141 | The main chain after a switch is again parent-linked from the same genesis block |
| Wallets.Wallet.MainChainAncestor | wallet/rescan.go:352-365 | Walking back from a recorded block ends at its nearest ancestor on the main chain |
| Wallets.Wallet.FindRescanPoint | wallet/rescan.go:383-405 | The first main chain block after the marker's nearest main chain ancestor, or none exactly if that ancestor is the tip |
| Wallets.Wallet.UpdateProcessedTxsBlockMarker | wallet/udb/txmined.go:278-330 | Moves the marker only to a main chain block above the present one's nearest main chain ancestor, and fails for other blocks |
| Wallets.Wallet.GetMainChainBlockHashes | wallet/udb/txmined.go:870-924 | The main chain hashes that begin with, or follow, a main chain block, up to a limit |
| Wallets.Wallet.RescanChain | wallet/rescan.go:205-263 | The batches partition the heights from the start through the tip, the genesis block excepted, and the marker ends where no rescan is pending |
| Markers.MainIsBranch | wallet/rescan.go:352-365 | The nearest main chain ancestor of a main chain block is itself, and the chain below it is its ancestry |
| Markers.NothingPending | wallet/rescan.go:383-405 | If the marker is scanned through and nothing is pending, every main chain block above genesis has been scanned |
| Markers.MarkerNotBeyondTip | wallet/rescan.go:383-405 | A marker without more work than the tip is no descendant of the tip, which keeps a rescan point well defined |
| Markers.SwitchMarkerExactly | wallet/chainntfns.go:152-173 | By heights: no rescan point on the new chain exactly if the marker's nearest ancestor is its tip; the marker stays if the branch begins more than two blocks above that ancestor, and is the new tip otherwise |
| Markers.SwitchFindsFork | wallet/chainntfns.go:152-167 | With nothing pending, the rescan point on the switched chain is its first new block |
| Markers.SwitchMovesMarker | wallet/chainntfns.go:152-173 | Under the callers' guard a switch with transactions finds a rescan point, moves the marker to the new tip, and leaves nothing pending |
| Markers.SwitchScans | wallet/chainntfns.go:152-173 | If the blocks of such a switch were scanned, everything up to the new tip has then been scanned |
| MarkerRuns.StepKeepsInv | spv/sync.go:872-928 | Adding headers, switching, starting a rescan at any height up to the rescan point, reading, scanning or finishing a batch keeps the chain consistent and every ancestor of the marker scanned |
| MarkerRuns.MarkerSafety | wallet/rescan.go:170-263 | In every state of every run whose rescans start at or below the rescan point, all ancestors of the marker above genesis have been scanned at some time |
| MarkerRuns.NoPendingMeansAllScanned | spv/sync.go:904-915 | In every such run a wallet with no rescan pending has scanned its whole main chain, so a guarded switch always has a rescan point |
| RescanStarts.RescannedExactly | wallet/rescan.go:205-263 | After a rescan from any height nothing is pending; the tip is scanned through, and the invariant of all runs holds, if and only if the block below the start had been scanned through |
| RescanStarts.StartAbovePoint | wallet/rescan.go:293-316 | A rescan from above the rescan point moves the marker to the tip with the block at the rescan point unscanned |
| RescanStarts.StaleStart | spv/sync.go:1148-1192 | So does a rescan from a height read before a switch to a branch that forks below it, for any unscanned block of that branch below the height |
| RescanStarts.UnguardedExactly | wallet/chainntfns.go:152-173 | Without the syncer's guard, a switch with transactions keeps the invariant of all runs if and only if the branch begins more than two blocks above the marker's nearest ancestor, or everything below the branch had been scanned |
| RescanStarts.UnguardedSkipsOne | wallet/chainntfns.go:165-166 | It passes over the block below the branch if that is the one unscanned block |
| RescanStarts.PointStays | spv/sync.go:1148-1192 | In every run a rescan point read in one state is at or below the rescan point of a later one, if the block below it stayed in the main chain |
| MarkerRuns.WorkNeverDrops | wallet/sidechains.go:246-292 | In no run does the total work of the main chain drop |
| MarkerRuns.PanicUnreachable | wallet/sidechains.go:200-206 | In no state of any run does adding a known block reach the internal consistency failure, and no forest block is in the main chain |
| ValidRuns.MainStaysValid | spv/sync.go:890-925 | In every run whose switches are validated first, every main chain block has the bits, the price and the work its history requires |
| Announced.HeaviestExactly | wallet/sidechains.go:246-292 | With nothing better in the forest, the tip is heaviest among all headers announced with their ancestors if and only if no heavier one descends from a forgotten one |
| Announced.SwitchReachesAnnounced | spv/sync.go:884-925 | In every run this is so after a switch |
| Announced.ForgottenBranch | wallet/chainntfns.go:203-204 | A run in which a sibling of the attached branch is forgotten, grows, and ends heavier than the tip without being seen |
| Syncers.ReplaySwitch | wallet/chainntfns.go:75-80 | Popping the detached and pushing the attached blocks of a tip notification turns the old main chain into the new one |
| Syncers.SwitchDone | spv/sync.go:917-925 | What holds after a switch and the return of its blocks: well-formed forest, nothing better known, the client's replay equal to the main chain |
| Syncers.RoundHeaviest | spv/sync.go:872-928 | If every branch over the blocks known after an announcement is valid, the tip is afterwards heaviest among all of them |
| Syncers.Syncer.AddNodes | spv/sync.go:875-888 | Adds exactly the announced blocks that are neither in the main chain nor known, never fails, and counts none exactly if there were none |
| Syncers.Syncer.SwitchToBest | spv/sync.go:890-925 | The result is exact in each outcome, with a best choice over the main chain and the known blocks: up to date exactly if there is none; refused exactly if some block of the best choice is not what its history requires, and then main chain, headers, marker, notifications and forest stay; otherwise main chain and forest are those after switching to it, with one notification of just that change. Every main chain block stays valid; the marker moves to the new tip exactly if the caller may scan and no rescan was pending |
| Syncers.Syncer.SwitchTo | spv/sync.go:917-925 | Switching to a best choice always succeeds, strictly adds work, puts every detached block back into the forest, and moves the marker to the new tip exactly if transactions are supplied |
| Syncers.Syncer.PutBack | spv/sync.go:921-924 | All removed blocks are in the forest again, merged with the trees that forked off them |
| Syncers.Syncer.HandleBlockAnnouncements | spv/sync.go:872-928 | The announcement critical section is such a round over the blocks known before together with the announced ones outside the main chain: which outcome, which best choice, the main chain, the known blocks and the notification after it. The marker moves to the new tip exactly if the chain was switched with no rescan pending |
| Syncers.Syncer.HandleHeaders | spv/sync.go:1034-1105 | The headers critical section reports nothing new exactly if no header is; otherwise it is such a round over the blocks known before and the new ones. It never moves the marker |
| TxScans.WatchedMeans | spv/rescan.go:56-82 | An outpoint is watched exactly if it was from the start, or an earlier output in scan order pays a watched address and created it |
| TxScans.FoundMeans | spv/rescan.go:22-85 | The plain scan finds exactly the transactions with an output that pays a watched address or an input that spends an outpoint given from the start or created by an earlier payment to us; the inputs of a coinbase and the first of a vote do not count |
| TxScans.SpendsExactly | spv/rescan.go:35-54 | A transaction spends what is watched exactly by an input; none counts of a coinbase, and all but the first of a vote |
| TxScans.SpendFound | spv/rescan.go:22-96 | In every block, any such input of either tree that spends an outpoint watched before the block puts its transaction among the block's results |
| TxScans.PaymentSpentFound | spv/rescan.go:22-96 | A transaction of either tree that spends an output of a payment to us in any earlier block is found in its block |
| TxScans.StakeSpentFound | spv/rescan.go:90-96 | So is a regular transaction that spends a payment to us in the stake tree of its own block |
| TxScans.NothingFoundNothingAdded | spv/rescan.go:56-82 | Only relevant transactions add outpoints to watch |
| Committed.HitsMeans | vendor/github.com/valhallacoin/vhcd/gcs/blockcf/blockcf.go:84-152 | A block's filter commits to something watched exactly if one of its transactions does |
| Committed.SpentExactly | vendor/github.com/valhallacoin/vhcd/gcs/blockcf/blockcf.go:84-152 | The outpoints a filter commits to are those spent by regular transactions other than the coinbase, and by ticket purchases |
| Committed.ScriptExactly | vendor/github.com/valhallacoin/vhcd/gcs/blockcf/blockcf.go:84-152 | The scripts it commits to are those of all regular outputs, and without their first byte those of revocations, of votes from the third output on, and of every second ticket output from the third on that carries a value |
| Committed.OrdinaryVisible | vendor/github.com/valhallacoin/vhcd/gcs/blockcf/blockcf.go:112-149 | A relevant transaction is committed if it pays watched addresses by their own scripts in outputs the filter covers, and spends what is watched only if it is no vote, revocation or coinbase |
| Committed.RelevantVisible | spv/backend.go:165-194 | If every transaction relevant before a block is committed, the block is shown whatever its later transactions find |
| Committed.VoteNotShown | vendor/github.com/valhallacoin/vhcd/gcs/blockcf/blockcf.go:126-130 | A vote that spends a watched ticket and pays by no watched script is found by the plain scan, although its block's filter does not show the block unless by another transaction |
| Committed.PaymentNotShown | vendor/github.com/valhallacoin/vhcd/gcs/blockcf/blockcf.go:140-149 | So is a coinbase that pays a watched address by another script than its own |
| Committed.AgreesExactly | spv/backend.go:137-273 | A scan of the blocks its filters show finds block by block what the plain scan finds if everything of interest is shown at its turn, and, without false matches, only then |
| Committed.AgreesWatched | spv/rescan.go:56-82 | A scan that found the same in every block watches the same outpoints, whichever blocks it skipped |
| Committed.FoundAgrees | spv/backend.go:242-269 | The matches saved are the plain scan's exactly if the scans agree in every block |
| Rescans.WatchFilter.LoadTxFilter | spv/backend.go:96-115 | After the call the filters hold exactly the old data, unless reloaded, plus the given addresses and outpoints |
| Rescans.WatchFilter.RescanCheckTransactions | spv/rescan.go:22-85 | One transaction tree: the matches, the data watched and the entries added are those of the plain scan |
| Rescans.WatchFilter.RescanBlock | spv/rescan.go:90-96 | One block: the same, the stake tree before the regular one |
| Rescans.WatchFilter.Rescan | spv/backend.go:137-273 | Although later passes test only new entries, the matches saved and the data watched at the end are those of scanning every block shown by its filter when its turn comes; they are the plain scan's if the filters show all of interest, and without false matches exactly then; it ends |
| Rescans.WatchFilter.RescanFetched | spv/backend.go:242-269 | One pass over fetched blocks, up to the first block that adds entries, extends the scan of the blocks shown; blocks that were not fetched show nothing watched by then, the new entries apart |
| Rescans.FetchMatching | spv/backend.go:161-240 | Afterwards exactly the blocks from the index on that show something watched are fetched; false matches may be fetched, too |
| Rescans.WatchFilter.ScanChain | spv/sync.go:729-835 | The same for the blocks of a branch about to be attached, some of which came with their announcement: what is reported per block equals the plain scan if the other blocks' filters show all of interest, and without false matches exactly then |
| Compacts.RoundsDown | wallet/difficulty.go:228-228 | Packing a target into difficulty bits never raises it and loses less than one part in 2^15 |
| Compacts.UnpackNegative | vendor/github.com/valhallacoin/vhcd/blockchain/difficulty.go:68-94 | Bits with the sign bit stand for minus the target of the same bits without it: the mantissa shifted by the exponent, down to zero for small ones |
| Compacts.CalcWorkPositive | wallet/sidechains.go:54-61 | A header carries work exactly if its target is positive and below 2^256 |
| Compacts.CalcWorkExactly | wallet/sidechains.go:54-61 | The work of positive target bits is the floor of 2^256 over the target plus one, and zero for all others |
| Compacts.HarderIsMoreWork | wallet/sidechains.go:54-61 | A lower target never means less work |
| Retargets.PreClampMonotone | wallet/difficulty.go:145-204 | The target before limits never drops when windows take longer |
| Retargets.WeightsExactly | wallet/difficulty.go:155-159 | Every window weighs 2^alpha times the one before it, and the oldest 2^alpha |
| Retargets.PreClampNear | wallet/difficulty.go:145-204 | The target before limits is the old one times the weighted mean of the window times over the target timespan, rounded down: the three divisions together lose less than one and one part in 2^31 of the old target |
| Retargets.OnTargetStays | wallet/difficulty.go:145-204 | If every window took the target timespan the target stays |
| Retargets.EqualWindows | wallet/difficulty.go:145-204 | If every window took the same multiple of its timespan the target is multiplied by exactly that |
| Retargets.StaysExactlyWhen | wallet/difficulty.go:145-204 | The target before limits equals a positive old one exactly if the weighted average change is one, or above it by less than the fixed point shows |
| Retargets.CancellingWindows | wallet/difficulty.go:145-204 | The converse of OnTargetStays fails: for all weights and any timespan divisible as required, two windows off target can cancel out |
| Retargets.TargetBounds | wallet/difficulty.go:206-222 | For a positive old target the next is at most the proof-of-work limit, and is the limit or within the adjustment factor of the old one |
| Retargets.TargetExactly | wallet/difficulty.go:206-222 | Which limit applies: none within the adjustment factor, otherwise the nearer end of that range, and never more than the proof-of-work limit, which also stands for a zero target |
| Retargets.BitsBounds | wallet/difficulty.go:219-233 | The bits returned never decode to more than the limit, nor to a negative target |
| StakePrices.EstimateSupply | wallet/difficulty.go:243-269 | The interval-by-interval loop computes the sum of all block subsidies exactly if the first block's subsidy would not have been reduced, and zero at and below height zero |
| StakePrices.EstimateAgainstSum | wallet/difficulty.go:243-269 | The estimate differs from the block-by-block sum by what the first block's subsidy would have been reduced |
| StakePrices.SubsidyExactly | wallet/difficulty.go:243-269 | Block by block: nothing at genesis, a special first subsidy, then the base subsidy, reduced by its fraction rounded down at every multiple of the interval and nowhere else |
| StakePrices.EstimateIsSum | wallet/difficulty.go:243-269 | So it is that sum exactly if there is no such reduction, as with every reduction interval above one |
| StakePrices.EstimateGrows | wallet/difficulty.go:243-269 | From height one on the estimate never decreases, for all parameters |
| StakePrices.EstimateGrowsExactly | wallet/difficulty.go:243-269 | From height zero on it never decreases exactly if the first block is not estimated below zero |
| StakePrices.NextPriceIsDcp0001 | wallet/difficulty.go:315-348 | The two-step division is the floor of DCP0001's single quotient; after conversion and clamp the price is DCP0001's if and only if the quotient fits in 64 bits or is clamped to the same |
| StakePrices.OverflowExample | wallet/difficulty.go:356-356 | A price that does not fit: the conversion yields the minimum although the true price is beyond the maximum |
| StakePrices.PriceMonotone | wallet/difficulty.go:304-366 | A larger current pool never lowers a price that fits; in general it does not exactly if the low 64 bits do not drop or the drop is clamped away |
| StakePrices.PriceBounds | wallet/difficulty.go:356-365 | The price is between the minimum and the supply-based maximum, the minimum winning |
| Difficulties.MixedServes | wallet/difficulty.go:368-388 | Before attaching, the branch above the fork and the database below it answer every parent and ancestor lookup from the switched main chain's history |
| Difficulties.AttachedServes | wallet/difficulty.go:368-388 | After attaching, the database alone does |
| Difficulties.BeforeEqualsAfter | wallet/difficulty.go:368-388 | Therefore both answer every lookup alike, and what is required of each block is the same before and after attaching, whether or not the branch outweighs what it replaces |
| Difficulties.FindPrevTestNetDifficulty | wallet/difficulty.go:45-73 | The bits of the last block that did not use the minimum difficulty rule, for any source that serves the history |
| Difficulties.CollectWindows | wallet/difficulty.go:115-188 | All window slots are filled for every history length, with each window's weighted change, windows that reach genesis counting as on target |
| Difficulties.NextRequiredPoWDifficulty | wallet/difficulty.go:77-234 | For every source that serves the history, the bits computed are those the history alone requires; `ChainLaws` says what these are |
| Difficulties.CancellingHeaders | vendor/github.com/valhallacoin/vhcd/chaincfg/mainnetparams.go:37-41 | There is a history of headers, for the parameters of every network, with two windows off target whose required target is the old one |
| Difficulties.SumPurchasedTickets | wallet/difficulty.go:274-293 | The tickets bought in the last blocks of the history, stopping at genesis |
| Difficulties.NextRequiredDCP0001PoSDifficulty | wallet/difficulty.go:393-453 | For every source that serves the history, the price computed is the one the history alone requires; `ChainLaws` says what this is |
| Difficulties.ValidateBlock | wallet/difficulty.go:541-569 | A block is accepted exactly if its bits, its work and its ticket price are what the history requires |
| Difficulties.ValidateHeaderChainDifficulties | wallet/difficulty.go:516-574 | On success every block meets its requirements; on a consensus failure the suffix returned begins with the first block that does not |
| ChainLaws.WorkDone | wallet/difficulty.go:552-555 | In a main chain of valid blocks every block above genesis did its work |
| ChainLaws.PriceStarts | wallet/difficulty.go:394-403 | In it, the ticket price is the minimum until tickets can be bought |
| ChainLaws.PriceKept | wallet/difficulty.go:405-411 | After that, neighbouring blocks have the same price unless the upper height is a multiple of the window |
| ChainLaws.PriceChanges | wallet/difficulty.go:413-452 | There the price stays if there was no pool one window before; otherwise it is DCP0001's quotient of the pools now and then, tickets of the last immature blocks included, clamped between the minimum, which wins, and the maximum, whenever the quotient fits in 64 bits |
| ChainLaws.MaximumIsSupply | wallet/difficulty.go:297-365 | The maximum is the sum of all subsidies so far per ticket of the target pool, if the first block's subsidy is not reduced |
| ChainLaws.OtherPricesFree | wallet/difficulty.go:557-568 | On unrecognized networks any price is accepted |
| ChainLaws.BitsKept | wallet/difficulty.go:84-106 | Off the retarget heights neighbouring blocks have the same bits, on networks without the minimum difficulty rule |
| ChainLaws.BitsMinimum | wallet/difficulty.go:88-97 | With the rule, a block that took too long has the bits of the limit |
| ChainLaws.BitsRegular | wallet/difficulty.go:45-73 | Otherwise it has those of the first block back that has other bits, is at a multiple of all windows, or is genesis |
| ChainLaws.BitsRetarget | wallet/difficulty.go:108-234 | At retarget heights the bits are those of the next target for the times between the blocks that end the last windows, windows that reach genesis counting as on target |
| Validity.ValidBelow | wallet/difficulty.go:77-234 | Whether a block is valid depends on the history up to it alone |
| Validity.ValidateBranch | spv/sync.go:895-898 | For a branch that extends the main chain, validation succeeds exactly if every block of it is valid for the history it would have after the switch |
| Validity.SwitchStaysTrue | spv/sync.go:895-925 | Switching a main chain of valid blocks to such a branch leaves one |
| AddrFinders.MidSegment | wallet/discovery.go:188-207 | Within the segments searched no 32-bit operation wraps around, and the sentinel belongs to no segment |
| AddrFinders.NextLeft | wallet/discovery.go:268-297 | Every round halves what is left; the bound shared by unused branches underflows at most once, so the search ends |
| AddrFinders.RoundKeeps | wallet/discovery.go:241-297 | A round keeps the last used index in the segment below the lower bound and, under the gap hypothesis, nothing used above the upper bound, also for branches whose upper bound underflowed |
| AddrFinders.Idle | wallet/discovery.go:268-297 | An underflowed bound is halved once more while another branch still runs, and the branch stays exact |
| AddrFinders.FinishedExact | wallet/discovery.go:180-235 | When no branch is active, a branch has the last used index that lies in a whole segment or was known before |
| AddrFinders.RoundBisects | wallet/discovery.go:241-297 | In the common search each branch advances as if bisected alone; a bound that underflowed and was halved, with a gap limit of one, repeats its search without a find |
| AddrFinders.BisectSeen | wallet/discovery.go:241-297 | What is found was known before or is committed |
| AddrFinders.NeverLooked | wallet/discovery.go:278-297 | For every number of segments from two on, one of the second and third is never looked at while nothing is found |
| Payments.BlockCommitments | wallet/discovery.go:33-64 | The scripts kept of a fetched block are exactly those its filter commits to |
| Payments.SubmittedMeans | wallet/discovery.go:33-64 | A filter commits to an address exactly if an output it covers carries the address's script |
| Payments.TicketsUncommitted | wallet/createtx.go:757-764 | A block of tickets pays all their voting addresses and commits to none of them |
| Discoveries.AddrFinder.constructor | wallet/discovery.go:114-162 | Searches start at the segment of the last used index the database knows |
| Discoveries.AddrFinder.RoundAddresses | wallet/discovery.go:186-231 | The addresses of a round are one whole segment of every active branch |
| Discoveries.AddrFinder.Filter | wallet/discovery.go:301-357 | Every block whose filter commits to an address of the round is fetched and its committed scripts kept, and nothing else is fetched than blocks whose filters match |
| Discoveries.AddrFinder.RecordUse | wallet/discovery.go:243-276 | In whatever order blocks are taken, every branch's last used index rises to the greatest found in its segment |
| Discoveries.AddrFinder.Narrow | wallet/discovery.go:278-297 | The new bounds of every branch, in 32-bit arithmetic |
| Discoveries.AddrFinder.Find | wallet/discovery.go:164-299 | The search over all branches ends, and each result is that of bisecting the branch alone over the indexes committed to below the tip. If those leave no gap it is the last one within whole segments; and it is the last index that any block pays to, the tip included, if and only if there is none, or that one is committed below the tip and in a whole segment or known before |
| Discoveries.ExactUnlessPartial | wallet/discovery.go:117-118 | The last used index is found if and only if it lies in a whole segment, was known before, or there is none |
| Discoveries.ExactOfAll | wallet/discovery.go:164-177 | For every larger set of used indexes the last one is found if and only if there is none, or the blocks searched commit to it and it is in a whole segment or was known |
| Discoveries.UncommittedMissed | wallet/discovery.go:164-177 | No index that is paid but not committed to below the tip is ever found, unless known |
| Discoveries.TipMissed | wallet/discovery.go:173-174 | The last used index is missed if it is paid in the tip alone |
| Discoveries.VotingAddressMissed | wallet/createtx.go:1157-1157 | The last used index is missed if it is paid by submission outputs alone, below the tip |
| Discoveries.TicketsHideUse | wallet/discovery.go:278-297 | For every gap limit with two whole segments: a block that pays the first addresses without a gap, all but the last by tickets, and whose last one is missed although it is committed |
| Discoveries.PartialSegmentMissed | wallet/discovery.go:117-118 | For every gap limit: if all indexes are used, the last one found is the last of the whole segments, which is the last used one exactly if the gap limit divides 2^31 |
| Discoveries.FindLastUsedAddress | wallet/discovery.go:670-701 | The search of a single branch is exact in the same sense |
| Discoveries.SearchesAgree | wallet/discovery.go:670-701 | The search of blocks from a known last used index agrees with the single-branch search, whose server knows of more uses and which starts from none, exactly if the known index is in a whole segment and what the server's search finds is committed or known |
| Discoveries.FindLastUsedAccount | wallet/discovery.go:565-621 | Under the account gap hypothesis the last used account, or account zero if none is used, with the partial last segment included; the search ends unless the account gap limit is one and all accounts on its way up are used |
| Discoveries.AccountMiddle | wallet/discovery.go:572-573 | The 32-bit middle lies between the bounds unless both are 2^31, which takes an account gap limit of one and the last account used; then it is zero |
| Discoveries.MiddleAfter | wallet/discovery.go:571-607 | The accounts such a search looks at while all are used: 2^31 less falling powers of two, then zero, and around again |
| Discoveries.NeverEnds | wallet/discovery.go:571-607 | If all of those are used, every round finds its account used and the bounds never meet |
| Discoveries.LastMeansAll | wallet/discovery.go:571-607 | Under the gap hypothesis that is so exactly if the very last account is used |
| AddressBuffers.NextIsWatched | wallet/addresses.go:190-251 | An address handed out is watched, and within the gap limit of the last used one unless the caller ignores the limit; the branch stays covered whether or not the index is recorded |
| AddressBuffers.MarksKeepRows | wallet/udb/addressmanager.go:1382-1506 | Marking used never lowers an index; marking returned may lower the last returned one, but never below the last used one, sentinels included |
| AddressBuffers.AheadIsCovered | wallet/addresses.go:350-396 | After catching up with the database all addresses the buffer can hand out within policy are watched |
| AddressBuffers.LoadedIsCovered | wallet/wallet.go:589-604 | What is watched on connecting covers a buffer loaded from the database |
| AddressBuffers.LastLoadedExactly | wallet/wallet.go:543-567 | On connecting, addresses are loaded up to a gap limit past the last returned one, as far as there are any |
| AddressBuffers.StepSafe | wallet/addresses.go:165-252 | Each of the steps, in any state in which the branch is covered, hands out only watched addresses and keeps it covered |
| AddressBuffers.AllRunsSafe | wallet/addresses.go:165-412 | In every interleaving of requests with any policy, persistent or not, marks, deferred updates and watching, no unwatched address is handed out |
| AddressOrder.NextExactly | wallet/addresses.go:190-251 | Below the gap limit every policy hands out the index at the cursor; at the limit one refuses, one starts over behind the last used index, one goes on if the next batch exists. Only an address handed out moves the cursor, by one |
| AddressOrder.Consecutive | wallet/addresses.go:190-251 | In any sequence of requests that do not wrap, the addresses handed out are consecutive, whatever requests fail in between |
| AddressOrder.WrapsAround | wallet/addresses.go:190-251 | With the wrapping policy they go round within the gap limit of the last used one |
| AddressOrder.WrapDistinct | wallet/addresses.go:190-251 | So as many wrapping requests in a row as the gap limit never hand out an address twice |
| AddressOrder.BranchesApart | wallet/addresses.go:165-252 | What one branch hands out in a sequence of requests to all accounts and branches depends on the requests to it alone |
| AddressOrder.BookConsecutive | wallet/addresses.go:165-252 | So in every such sequence the addresses of a branch are consecutive if none of its own requests wraps |
| AddressOrder.CaughtUpExactly | wallet/addresses.go:350-396 | A buffer whose last used index the database's last returned one has passed takes over the database's indexes and goes on behind the last returned one; otherwise it stays |
| AddressOrder.LoadedExactly | wallet/wallet.go:589-604 | A buffer loaded from the database goes on behind the last returned index |
| AddressOrder.NeverReused | wallet/addresses.go:165-412 | In every run in which returned indexes are recorded at once and no request wraps, each address handed out is higher than all before, whatever is used and watched in between |
| AddressOrder.DeferredReuse | wallet/addresses.go:350-396 | With deferred records, catching up between two requests hands out the same address twice exactly if an address had been returned since the last use |
| Addresses.AddressBook.LoadActiveAddrs | wallet/wallet.go:543-625 | Watches exactly the indexes up to the gap limit past the last returned one, of both branches of all accounts |
| Addresses.AddressBook.LoadBranchAddrs | wallet/wallet.go:545-567 | The batches cover exactly the indexes up to the last |
| Addresses.AddressBook.MarkUsedAddress | wallet/addresses.go:264-291 | Recording a used address changes that branch's row only, and keeps all rows ordered |
| Addresses.AddressBook.NextChild | wallet/addresses.go:190-251 | The result, the cursor and the batch watched are those `AddressOrder` is about, for every policy and for a failing database update |
| Addresses.AddressBook.NextAddress | wallet/addresses.go:165-252 | The exact errors, and new buffers, database row and watched addresses as in the sequences and runs of `AddressOrder` and `AddressBuffers`; an address returned is watched and, unless the limit is ignored, within the gap limit |
| Addresses.AddressBook.WatchFutureAddresses | wallet/addresses.go:293-412 | Every buffer catches up with its database row, nothing is unwatched, and all branches stay covered |
| Locators.CalcLog2 | wallet/wallet.go:911-918 | The number of binary digits |
| Locators.Log2Exactly | wallet/wallet.go:911-918 | The number of binary digits is the number needed |
| Locators.BlockLocators | wallet/wallet.go:943-980 | The tip and its ancestors at the depths reached, from sidechain and main chain, never more than are reserved; the 32-bit step may overflow only when it is not used again |
| Locators.LocatorCount | wallet/wallet.go:956-956 | The length never exceeds 10 plus the binary digits of the height |
| Locators.DepthsIncrease | wallet/wallet.go:959-977 | After the repeated tip, heights strictly decrease |
| Locators.NearestLocator | wallet/wallet.go:959-977 | For a fork at or above the last locator, the nearest locator at or below the fork is at most twice as deep |
| Locators.GenesisIsLocator | wallet/wallet.go:959-977 | The genesis block is a locator if and only if the tip's height is at most 8, or 8 plus a power of two |
| Locators.GenesisSkipped | wallet/wallet.go:959-977 | At height 11 the deepest locator is the block at height one |
| Lockers.WalletLocker.Serve | wallet/wallet.go:1302-1393 | The loop's reaction to every event is the transition function the run lemmas are about |
| Lockers.HeldIsUnlocked | wallet/wallet.go:1357-1378 | In every run, somebody holding the wallet has it unlocked |
| Lockers.UnlockedWhileHeld | wallet/wallet.go:1357-1364 | From a granted hold to its release the wallet stays unlocked |
| Lockers.ReleaseLocks | wallet/wallet.go:1366-1378 | A timer that elapses during the hold locks at the release, before any other request is served |
| Lockers.WaitsWhileHeld | wallet/wallet.go:1313-1378 | A request waits exactly while somebody holds the wallet, and a release never waits then |
| Lockers.ReleaseFrees | wallet/wallet.go:1357-1378 | In every run, after a release nobody holds the wallet and every request is served; if its timer has not elapsed it is still unlocked, with the same limit |
| Lockers.HeldExactly | wallet/wallet.go:1357-1378 | In every run the wallet is held exactly between a granted hold and the next release |
| Lockers.ReadyExactly | wallet/wallet.go:1379-1393 | A timer that elapsed stays so until it is received by a wallet it is the limit of |
| Lockers.FollowsRules | wallet/wallet.go:1307-1393 | The loop refines three modes, locked, unlocked and unlocked until a timer; a timer that survived a failed unlock does not count |
| Lockers.UnlimitedStaysUnlocked | wallet/wallet.go:1322-1333 | A wallet unlocked without a limit stays unlocked in every run until it is locked on request or by a wrong passphrase, whatever timers elapse |
| Lockers.WhyLocked | wallet/wallet.go:1379-1393 | A wallet becomes locked only on request, by a wrong passphrase, or by its own elapsed limit |
| VoteBits.StoreIsMaskedUpdate | wallet/wallet.go:375-384 | Storing a choice changes the bits read from storage exactly as clearing the agenda's mask and setting the choice's bits |
| VoteBits.UpdatesFollow | wallet/wallet.go:337-384 | Masked updates of the cached bits, in the order of the choices, give the bits of what is stored |
| VoteBits.SameBits | wallet/wallet.go:236-264 | Two sets of preferences give the same vote bits exactly if they choose the same bits for every agenda |
| VoteBits.ChoiceBitsExactly | wallet/wallet.go:236-264 | The bits of a preference are those of the first choice with its ID; an unknown one has none |
| VoteBits.StoredExactly | wallet/wallet.go:236-264 | The first bit is always set, every agenda's bits are those of its preferred choice, and no others are set |
| VoteBits.OverlappingCalls | wallet/wallet.go:337-384 | If two overlapping calls are stored in one order and cached in the other, cache and storage agree if and only if no agenda gets different bits from the two calls |
| VoteBits.OverlappingCallsDisagree | wallet/wallet.go:337-384 | Two calls that choose differently for one agenda do leave cache and storage apart |
| VoteBits.AgendaVotes.ReadDBVoteBits | wallet/wallet.go:236-264 | The loop computes the bits of the stored preferences |
| VoteBits.AgendaVotes.SetAgendaChoices | wallet/wallet.go:324-387 | Succeeds exactly if there are agendas and every choice is known; stores all or nothing, the last choice for an agenda counting, and the cached bits equal those of storage afterwards in every case |
| PgpWords.DecodeMnemonics | pgpwordlist/pgpwordlist.go:36-60 | The loop computes the bytes of the words, or the error of the first word at fault |
| PgpWords.Indexes | pgpwordlist/wordlist.go:25-31 | The index of a word, case aside, is its place in the list |
| PgpWords.DecodesExactly | pgpwordlist/pgpwordlist.go:26-60 | Words decode to bytes if and only if, blanks and case aside, they are the words of those bytes |
| PgpWords.FirstError | pgpwordlist/pgpwordlist.go:36-60 | The error is that of the first word that is not in the list or has the wrong parity for its place among the words that are not blank |
| PgpWords.TrimExactly | pgpwordlist/pgpwordlist.go:40-43 | What is trimmed is white space, and what is left neither begins nor ends with it |
| PgpWords.DeletionRejected | pgpwordlist/pgpwordlist.go:50-54 | A valid list is rejected after deleting any word that another follows |
| PgpWords.SwapRejected | pgpwordlist/pgpwordlist.go:50-54 | A valid list is rejected after swapping two adjacent words |
| Seeds.EncodeMnemonicSlice | walletseed/seed.go:44-52 | The words of the seed and of its checksum |
| Seeds.EncodeMnemonic | walletseed/seed.go:55-67 | The same words separated by single spaces, also for the empty seed |
| Seeds.WordsExactly | walletseed/seed.go:44-67 | Byte by byte: the first word of a pair at even, the second at odd places, the checksum last |
| Seeds.SplitJoin | walletseed/seed.go:71-73 | Splitting at spaces undoes joining |
| Seeds.JoinSplit | walletseed/seed.go:71-73 | And joining undoes splitting, for every string |
| Seeds.DecodeUserInput | walletseed/seed.go:71-102 | The seed, or the first error: hexadecimal, words, checksum, length |
| Seeds.HexExactly | walletseed/seed.go:74-80 | Hexadecimal input decodes to bytes if and only if, case aside, it is their digits |
| Seeds.HexOfSeed | walletseed/seed.go:74-101 | A single piece of input gives a seed if and only if the length is allowed and it is the seed's digits |
| Seeds.ChecksumExactly | walletseed/seed.go:83-95 | Words are rejected for their checksum if and only if they are the words of bytes whose last is not the checksum of the others |
| Seeds.WordsOfSeed | walletseed/seed.go:82-101 | A list of words decodes to a seed if and only if the length is allowed and the words are those of the seed and its checksum |
| Seeds.MnemonicRoundTrip | walletseed/seed.go:55-102 | Decoding the mnemonic of a seed of allowed length returns the seed |

## Left out

- SidechainTrees: nodes are values that contain their parent, since the source only redirects parent pointers when a node is attached; sharing of nodes between trees is not modelled.
- Sidechains.SidechainForest.AddBlockNode: is not stated for headers of the same hash with different contents, because a hash determines its header here.
- Wallets.Wallet.ChainSwitch: processing of transactions, stake pool data, missing filters and database errors are not modelled, because only chain, marker, forest and notification matter to the results; the error of an absent rescan point is.
- MarkerRuns.MarkerSafety: counts a block as scanned once it has ever been scanned, and covers the syncer's guard that supplies transactions only if no rescan is pending; without that guard the property fails exactly where `RescanStarts.UnguardedExactly` says. Rescans that start above the rescan point are outside these runs; `RescanStarts.RescannedExactly` says when they do no harm.
- Rescans.WatchFilter.Rescan: the worker goroutines that test filters are one loop, since their results are collected before any is used; cancellation and failing peers only end or repeat a fetch.
- Committed.Entries: every address has its script here; an address the source cannot build a script for is not watched at all (wallet addresses always have one).
- Difficulties.ValidateHeaderChainDifficulties: performed work is an uninterpreted test; the branch must not contain the genesis block, whose missing parent the source does not handle either.
- StakePrices.EstimateSupply: the 64-bit overflow of subsidy sums is not modelled, because no parameters of a real network come near it.
- Retargets: 64-bit overflow of the sum of weights is excluded by `PowParamsOk`, as the source's own comment warns of it.
- Discoveries.AddrFinder.Find: errors of peers and of the database end the search early and are not modelled; branches of all accounts are numbered in one list.
- Discoveries.FindLastUsedAccount: whether an account is used is a parameter; the server's answer for its first addresses is not modelled.
- Addresses.AddressBook.NextAddress: the case of no network connection, in which addresses past the gap limit are not watched until the wallet connects, is not modelled; accounts are not added during a run.
- Addresses: ExtendWatchedAddresses and the return of address ranges, which hand out no new address.
- Lockers.WalletLocker.Serve: passphrase checking is a parameter, and shutting down is not modelled.
- VoteBits: the extended bits, which hold only the vote version.
- Seeds.MnemonicRoundTrip: the PGP word list and the checksum are parameters; the list must have 512 words that differ in lower case and have no white space. Lower case and white space are those of ASCII.
- Wallet.findLastUsedAccount (wallet/discovery.go:417-542): its lower bound does not advance with its finds, so it is a different search.
- The consensus RPC syncer (chain/sync.go): it keeps relevant transactions under other rules than the SPV syncer.
- wallet/udb, walletdb, transaction construction, signing, voting, ticket purchase, the peer-to-peer protocol, RPC servers and command-line tools are storage, library arithmetic or input and output, and are not part of this model.
- The lru cache, notification queues, error wrapping and version comparison would add only easy members.

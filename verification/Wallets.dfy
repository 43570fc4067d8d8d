/** The wallet's stored main chain, the choice of the best known sidechain, and
    the switch to it (wallet/sidechains.go, wallet/chainntfns.go). */
module Wallets {
  import opened Headers
  import opened BlockSets
  import opened RootedTrees
  import opened Forests
  import opened SidechainTrees
  import opened Sidechains
  import opened MainChains
  import opened Markers
  import opened Options

  /** What a client is told about a change of the main chain. */
  datatype TipChange = TipChange(detached: seq<Hash>, attached: seq<Hash>, newHeight: nat)

  /** `Crashed` is the use of an absent rescan point. */
  datatype SwitchResult = Switched(prev: seq<Node>) | Failed | Crashed

  class Wallet {
    const w: World
    const coinbaseMaturity: nat
    /** The hash of the main chain block at each height. */
    var mainChain: seq<Hash>
    /** All headers ever recorded; they are never removed. */
    var headers: map<Hash, Header>
    /** The last block whose transactions have been processed. */
    var marker: Hash
    /** The tip notifications sent so far. */
    var tipChanges: seq<TipChange>

    ghost predicate Valid()
      reads `mainChain, `headers, `marker
    {
      && w.Linked() && MainOk(w, mainChain)
      && HeadersOk(w, mainChain, headers) && marker in headers
    }

    predicate BlockInMainChain(h: Hash)
      reads `mainChain, `headers, `marker
      requires Valid()
      ensures BlockInMainChain(h) <==> h in mainChain
    {
      MainHeights(w, mainChain);
      h in headers && headers[h].height < |mainChain| && mainChain[headers[h].height] == h
    }

    /** The work a branch adds to the main chain: its own work less that of the
        main chain blocks above its fork point. */
    method BranchGain(fork: Hash, chainWork: nat) returns (work: int)
      requires Valid() && fork in mainChain
      ensures work == Total(w, fork) + chainWork - Total(w, Tip(mainChain))
    {
      MainFacts();
      MainHeights(w, mainChain);
      RecordedMain(w, mainChain, headers);
      hide MainOk, HeadersOk, Valid, Total, WorkAbove;
      work := 0;
      var hash := mainChain[|mainChain| - 1];
      var header := headers[hash];
      ghost var i :| 0 <= i < |mainChain| && mainChain[i] == fork;
      ghost var j := |mainChain| - 1;
      while hash != fork
        invariant i <= j < |mainChain| && hash == mainChain[j] && header == w.headerOf(hash)
        invariant work + WorkAbove(w, mainChain, j) == 0
        decreases j
      {
        StepDown(w, mainChain, j);
        work := work - w.calcWork(header.bits);
        var prev := header.prev;
        header := headers[prev];
        hash := prev;
        j := j - 1;
      }
      TotalFromFork(w, mainChain, i);
      work := work + chainWork;
    }

    /** The branch of the forest with the most work over the main chain, or
        nothing when no branch has more work. */
    method EvaluateBestChain(f: SidechainForest) returns (chain: seq<Node>)
      requires Valid() && f.Valid() && f.w == w
      requires ChainInv(w, mainChain, f.Blocks())
      modifies f.TreeSet()`bestChain
      ensures f.Valid() && f.trees == old(f.trees) && f.Blocks() == old(f.Blocks())
      ensures chain == [] ==> NoBetter(w, mainChain, f.Blocks())
      ensures chain != [] ==> BestChoice(w, mainChain, f.Blocks(), Hashes(chain))
      ensures chain != [] ==> NodesOf(w, chain)
    {
      hide BestSoFar, BestOfRoot, NoBetter, BestChoice, NodesOf, MainOk, ChainInv, Valid;
      hide SidechainForest.Valid, SidechainForest.Blocks, SidechainForest.Values, RootHashes;
      MainFacts();
      ghost var s := f.Blocks();
      ghost var roots := RootHashes(f.Values());
      chain := [];
      var workDiff: int := 0;
      var i := 0;
      NothingSoFar(w, mainChain, s, roots[..0]);
      while i < |f.trees|
        invariant 0 <= i <= |f.trees| == |roots| && |mainChain| > 0
        invariant f.Valid() && f.trees == old(f.trees) && f.Blocks() == s
        invariant roots == RootHashes(f.Values())
        invariant BestSoFar(w, mainChain, s, roots[..i], chain, workDiff)
      {
        var branch, work := EvaluateTree(f, i, f.trees[i]);
        TakeBranch(w, mainChain, s, roots, i, branch, chain, workDiff, work);
        if work > workDiff {
          chain := branch;
          workDiff := work;
        }
        i := i + 1;
      }
      BestFound(w, mainChain, f, roots[..i], chain, workDiff);
    }

    lemma MainFacts()
      requires Valid()
      ensures |mainChain| > 0 && MainOk(w, mainChain) && w.IsChain(mainChain) && HeadersOk(w, mainChain, headers)
    {
    }

    /** The best branch of one tree and the work it adds to the main chain;
        orphan trees are ignored and add nothing. */
    method EvaluateTree(f: SidechainForest, i: nat, t: RootedTree) returns (branch: seq<Node>, work: int)
      requires Valid() && f.Valid() && f.w == w && i < |f.trees| && t == f.trees[i]
      requires ChainInv(w, mainChain, f.Blocks())
      modifies t`bestChain
      ensures f.Valid() && f.trees == old(f.trees) && f.Blocks() == old(f.Blocks())
      ensures RootHashes(f.Values()) == RootHashes(old(f.Values()))
      ensures BestOfRoot(w, mainChain, f.Blocks(), RootHashes(f.Values())[i], branch, work)
    {
      RootInForest(w, f.Values(), i);
      assert |mainChain| > 0 && f.Values()[i] == t.Value();
      hide ForestWf, Tree.Wf, Tree.Blocks, Tree.IsBest, MainOk, HeadersOk, Valid, ChainInv;
      hide BestOfRoot, ForestBlocks, Total;
      var fork := t.root.header.prev;
      if !BlockInMainChain(fork) {
        OrphansAddNothing(w, mainChain, f.Blocks(), t.root.hash);
        return [], 0;
      }
      branch, work := EvaluateSidechain(f, i, t, fork);
    }

    /** The best branch of a tree that leaves the main chain at `fork`. */
    method EvaluateSidechain(f: SidechainForest, i: nat, t: RootedTree, fork: Hash) returns (branch: seq<Node>, work: int)
      requires Valid() && f.Valid() && f.w == w && i < |f.trees| && t == f.trees[i]
      requires ChainInv(w, mainChain, f.Blocks())
      requires fork == w.Prev(t.root.hash) && fork in mainChain
      modifies t`bestChain
      ensures f.Valid() && f.trees == old(f.trees) && f.Blocks() == old(f.Blocks())
      ensures RootHashes(f.Values()) == RootHashes(old(f.Values()))
      ensures BestOfRoot(w, mainChain, f.Blocks(), RootHashes(f.Values())[i], branch, work)
    {
      hide ForestWf, Tree.Wf, Tree.Blocks, Tree.IsBest, MainOk, HeadersOk, Valid, ChainInv;
      hide BestOfRoot, ForestBlocks, Total;
      assert RootHashes(f.Values())[i] == t.root.hash;
      var branchWork;
      branch, branchWork := BestBranch(f, i, t);
      work := BranchGain(fork, branchWork);
      BestIsBestOfRoot(w, mainChain, f.Values(), i, branch, work);
    }

    /** Walks back from a recorded block to the main chain. */
    method MainChainAncestor(hash: Hash) returns (a: Hash)
      requires Valid() && hash in headers
      ensures a == MainAncestor(w, mainChain, hash) && a in mainChain
    {
      a := hash;
      while !BlockInMainChain(a)
        invariant a in headers && MainAncestor(w, mainChain, a) == MainAncestor(w, mainChain, hash)
        decreases w.Height(a)
      {
        a := headers[a].prev;
      }
    }

    /** The block a rescan should begin at, or none when no rescan is needed. */
    method FindRescanPoint() returns (r: Option<Hash>)
      requires Valid()
      ensures r == RescanPoint(w, mainChain, marker)
      ensures r == None <==> MainAncestor(w, mainChain, marker) == Tip(mainChain)
      ensures r.Some? ==> r.value in headers
    {
      var a := MainChainAncestor(marker);
      MainHeights(w, mainChain);
      if a == mainChain[|mainChain| - 1] {
        return None;
      }
      var i := headers[a].height + 1;
      r := Some(mainChain[i]);
    }

    /** Moves the marker to a main chain block above the fork point of the
        present one; fails for a block that is not in the main chain. */
    method UpdateProcessedTxsBlockMarker(hash: Hash) returns (ok: bool)
      requires Valid()
      modifies `marker
      ensures Valid() && (ok <==> hash in mainChain)
      ensures marker == if ok then MovedMarker(w, mainChain, old(marker), hash) else old(marker)
    {
      var a := MainChainAncestor(marker);
      if !BlockInMainChain(hash) {
        return false;
      }
      if headers[hash].height > headers[a].height {
        marker := hash;
      }
      ok := true;
    }

    /** Up to `limit` main chain hashes beginning with, or after, a main chain
        block. */
    method GetMainChainBlockHashes(start: Hash, inclusive: bool, limit: nat) returns (hashes: seq<Hash>)
      requires Valid() && start in mainChain
      ensures var first := w.Height(start) + if inclusive then 0 else 1;
              && first <= |mainChain|
              && hashes == mainChain[first..if first + limit < |mainChain| then first + limit else |mainChain|]
    {
      MainHeights(w, mainChain);
      var height := headers[start].height;
      if !inclusive {
        height := height + 1;
      }
      hashes := CopyHashes(mainChain, height, limit);
    }

    /** The network backend tests a batch and saves the blocks that hold
        relevant transactions, which moves the marker along. */
    method SaveRescanned(blocks: seq<Hash>, relevant: set<Hash>)
      requires Valid() && forall b :: b in blocks ==> b in mainChain
      modifies `marker
      ensures Valid()
    {
      var i := 0;
      while i < |blocks|
        invariant 0 <= i <= |blocks| && Valid()
      {
        if blocks[i] in relevant {
          var ok := UpdateProcessedTxsBlockMarker(blocks[i]);
        }
        i := i + 1;
      }
    }

    /** Scans all main chain blocks from `start` through the tip, in batches.
        The batches cover every height once, except that of the genesis block,
        and afterwards no rescan is needed. */
    method RescanChain(start: Hash, relevant: set<Hash>) returns (batches: seq<seq<Hash>>)
      requires Valid() && start in mainChain
      modifies `marker
      ensures Valid()
      ensures w.Height(start) < |mainChain|
      ensures Flatten(batches) == mainChain[if w.Height(start) == 0 then 1 else w.Height(start)..]
      ensures forall b :: b in batches ==> 0 < |b| <= MAX_BLOCKS_PER_RESCAN
      ensures RescanPoint(w, mainChain, marker) == None
    {
      hide MainOk, HeadersOk, Valid, MainAncestor, RescanPoint, Flatten, Covered;
      StartHeight(start);
      var height: nat := headers[start].height;
      var rescanFrom, inclusive := start, true;
      batches := [];
      ghost var low: nat := if height == 0 then 1 else height;
      StartCovered(start, low);
      var done := false;
      while !done
        invariant Valid() && Covered(w, mainChain, low, rescanFrom, height, inclusive, batches)
        invariant inclusive || w.Height(MainAncestor(w, mainChain, marker)) >= height - 1
        invariant done ==> low <= |mainChain| && Flatten(batches) == mainChain[low..] && RescanPoint(w, mainChain, marker) == None
        decreases !done, |mainChain| - height, inclusive
      {
        CoveredFacts(w, mainChain, low, rescanFrom, height, inclusive, batches);
        var blocks, first := NextRescanBatch(rescanFrom, inclusive, height);
        if |blocks| == 0 {
          AllRescanned(first);
          done := true;
        } else {
          RescanBatch(first, blocks, relevant);
          CoverMore(w, mainChain, low, rescanFrom, height, inclusive, batches, first, blocks);
          batches := batches + [blocks];
          rescanFrom, height, inclusive := blocks[|blocks| - 1], first + |blocks|, false;
        }
      }
      CoveredFacts(w, mainChain, low, rescanFrom, height, inclusive, batches);
    }

    lemma StartCovered(start: Hash, low: nat)
      requires Valid() && start in mainChain
      requires low == if w.Height(start) == 0 then 1 else w.Height(start)
      ensures Covered(w, mainChain, low, start, w.Height(start), true, [])
    {
      MainHeights(w, mainChain);
    }

    lemma StartHeight(start: Hash)
      requires Valid() && start in mainChain
      ensures start in headers && headers[start].height == w.Height(start) < |mainChain|
    {
      MainHeights(w, mainChain);
    }

    /** The next batch of hashes and the height it starts at.  The genesis block
        is not rescanned. */
    method NextRescanBatch(rescanFrom: Hash, inclusive: bool, height: nat) returns (blocks: seq<Hash>, first: nat)
      requires Valid() && rescanFrom in mainChain
      requires height == w.Height(rescanFrom) + if inclusive then 0 else 1
      ensures first == if height == 0 then 1 else height
      ensures first + |blocks| <= |mainChain| && blocks == mainChain[first..first + |blocks|]
      ensures |blocks| <= MAX_BLOCKS_PER_RESCAN && (blocks == [] ==> first == |mainChain|)
    {
      blocks := GetMainChainBlockHashes(rescanFrom, inclusive, MAX_BLOCKS_PER_RESCAN);
      hide MainOk, HeadersOk;
      first := height;
      if height == 0 {
        blocks := blocks[1..];
        first := 1;
      }
    }

    /** One batch: test it, save what is relevant, move the marker to its end. */
    method RescanBatch(height: nat, blocks: seq<Hash>, relevant: set<Hash>)
      requires Valid() && blocks != [] && height + |blocks| <= |mainChain|
      requires blocks == mainChain[height..height + |blocks|]
      modifies `marker
      ensures Valid() && w.Height(blocks[|blocks| - 1]) == height + |blocks| - 1
      ensures w.Height(MainAncestor(w, mainChain, marker)) >= height + |blocks| - 1
    {
      BatchInMain(w, mainChain, height, blocks);
      SaveRescanned(blocks, relevant);
      var last := blocks[|blocks| - 1];
      MarkerReaches(w, mainChain, headers, marker, last);
      var ok := UpdateProcessedTxsBlockMarker(last);
    }

    lemma AllRescanned(height: nat)
      requires Valid() && height >= |mainChain|
      requires height == 1 || w.Height(MainAncestor(w, mainChain, marker)) >= height - 1
      ensures RescanPoint(w, mainChain, marker) == None
    {
      NothingLeft(w, mainChain, headers, marker);
    }

    /** The main chain blocks from height `fork` on, lowest first, read from the
        tip down, and their work. */
    method CollectDetached(fork: nat) returns (prevChain: seq<Node>, oldWork: nat)
      requires Valid() && fork < |mainChain|
      ensures Hashes(prevChain) == mainChain[fork..] && FreshNodes(w, prevChain)
      ensures oldWork == w.SumWork(mainChain[fork..])
    {
      var tipHeight := |mainChain| - 1;
      var blank := NewBlockNode(w, mainChain[tipHeight]);
      prevChain := seq(tipHeight - fork + 1, _ => blank);
      oldWork := 0;
      var i := tipHeight;
      RecordedMain(w, mainChain, headers);
      assert w.SumWork(mainChain[tipHeight + 1..]) == 0;
      hide MainOk, Valid, HeadersOk, Headers.World.SumWork, FreshNodes, Hashes;
      while i >= fork
        invariant fork - 1 <= i <= tipHeight && |prevChain| == tipHeight - fork + 1
        invariant forall k :: i < k <= tipHeight ==> prevChain[k - fork] == NewBlockNode(w, mainChain[k])
        invariant oldWork == w.SumWork(mainChain[i + 1..])
      {
        var hash := mainChain[i];
        var header := headers[hash];
        prevChain := prevChain[i - fork := Node(hash, header, NoParent, 0)];
        SumWorkFrom(w, mainChain, i);
        oldWork := oldWork + w.calcWork(header.bits);
        i := i - 1;
      }
      CollectedNodes(w, mainChain, fork, prevChain);
    }

    /** Attaches the blocks of a sidechain to a main chain cut at its fork.  A block
        that is already there is passed over; the first that neither is there nor
        extends the chain makes it fail. */
    method AttachBlocks(kept: seq<Hash>, chain: seq<Node>) returns (ok: bool, main: seq<Hash>, recorded: map<Hash, Header>)
      requires |kept| > 0 && OwnHeaders(w, chain) && RecordedAll(w, kept, headers)
      ensures ok <==> Linking(w, kept, Hashes(chain)) != None
      ensures ok ==> main == Linking(w, kept, Hashes(chain)).value && recorded == WithHeaders(w, headers, Hashes(chain))
    {
      hide OwnHeaders, RecordedAll, Linking, WithHeaders;
      main := kept;
      recorded := headers;
      ghost var hs := Hashes(chain);
      var i := 0;
      LinkingStart(w, kept, headers, hs);
      while i < |chain|
        invariant 0 <= i <= |chain| && |main| > 0
        invariant Linking(w, kept, hs[..i]) == Some(main) && RecordedAll(w, main, recorded)
        invariant recorded == WithHeaders(w, headers, hs[..i])
      {
        var n := chain[i];
        OwnHeader(w, chain, i);
        LinkNext(w, kept, hs, i, main);
        RecordNext(w, headers, hs, i);
        RecordLinked(w, main, recorded, n.hash);
        if n.header.height < 1 {
          return false, main, recorded;
        }
        if n.header.prev != main[|main| - 1] {
          if n.header.height >= |main| || main[n.header.height] != n.hash {
            return false, main, recorded;
          }
        } else {
          if n.header.height != |main| {
            return false, main, recorded;
          }
          main := main + [n.hash];
          recorded := recorded[n.hash := n.header];
        }
        i := i + 1;
      }
      assert hs[..i] == hs;
      ok := true;
    }

    /** Everything a switch works out before it writes: the blocks to detach and
        the resulting main chain.  Fails exactly when the blocks do not outweigh
        those they replace, or cannot be attached. */
    method PrepareSwitch(chain: seq<Node>)
      returns (ok: bool, prevChain: seq<Node>, newMain: seq<Hash>, recorded: map<Hash, Header>)
      requires Valid() && chain != [] && OwnHeaders(w, chain)
      ensures ok <==> Accepted(w, mainChain, Hashes(chain), chain[|chain| - 1].workSum)
      ensures ok ==>
        && newMain == AcceptedMain(w, mainChain, Hashes(chain))
        && recorded == WithHeaders(w, headers, Hashes(chain))
        && Hashes(prevChain) == Detached(w, mainChain, Hashes(chain)) && FreshNodes(w, prevChain)
    {
      ghost var hs := Hashes(chain);
      MainHeights(w, mainChain);
      ok, newMain, recorded := false, mainChain, headers;
      prevChain := [];
      OwnHeader(w, chain, 0);
      var forkHeight := chain[0].header.height;
      var tipHeight := |mainChain| - 1;
      var newWork := chain[|chain| - 1].workSum;
      var kept := mainChain;
      if forkHeight <= tipHeight {
        var oldWork;
        prevChain, oldWork := CollectDetached(forkHeight);
        assert hs[0] == chain[0].hash && w.Height(hs[0]) == forkHeight;
        if newWork <= oldWork || forkHeight == 0 {
          return;
        }
        kept := mainChain[..forkHeight];
      }
      assert RecordedAll(w, kept, headers) && |kept| > 0 && FreshNodes(w, prevChain);
      KeptIs(w, mainChain, hs, kept);
      assert Hashes(prevChain) == Detached(w, mainChain, hs);
      hide MainOk, Valid, Linking, RecordedAll, WithHeaders, OwnHeaders, FreshNodes, Kept, Detached;
      ok, newMain, recorded := AttachBlocks(kept, chain);
    }

    /** Writes the new main chain and, if transactions were supplied, moves the
        marker.  The absent rescan point of a crash is read here. */
    method CommitSwitch(chain: seq<Node>, newMain: seq<Hash>, recorded: map<Hash, Header>, relevant: bool)
      returns (crashed: bool)
      requires Valid() && chain != [] && OwnHeaders(w, chain)
      requires forall h :: h in Hashes(chain) ==> h in w.known
      requires Accepted(w, mainChain, Hashes(chain), chain[|chain| - 1].workSum)
      requires newMain == AcceptedMain(w, mainChain, Hashes(chain))
      requires recorded == WithHeaders(w, headers, Hashes(chain))
      modifies `mainChain, `headers, `marker
      ensures Valid() && mainChain == newMain && headers == recorded
      ensures crashed <==> relevant && SwitchMarker(w, mainChain, Hashes(chain), old(marker)) == None
      ensures !crashed ==>
        marker == if relevant then SwitchMarker(w, mainChain, Hashes(chain), old(marker)).value else old(marker)
    {
      ghost var hs := Hashes(chain);
      SwitchStaysValid(w, mainChain, headers, marker, hs, chain[|chain| - 1].workSum);
      mainChain := newMain;
      headers := recorded;
      assert Tip(hs) in newMain;
      assert Valid() && chain[0].header == w.headerOf(chain[0].hash);
      hide Accepted, AcceptedMain, WithHeaders, MainOk, OwnHeaders, Valid, SwitchMarker;
      crashed := false;
      if relevant {
        crashed := MoveMarkerToTip(chain);
      }
    }

    /** The marker follows the new tip only from close below the fork; otherwise
        blocks from the rescan point on would be passed over. */
    method MoveMarkerToTip(chain: seq<Node>) returns (crashed: bool)
      requires Valid() && chain != [] && chain[0].header == w.headerOf(chain[0].hash)
      requires Tip(Hashes(chain)) in mainChain
      modifies `marker
      ensures Valid()
      ensures crashed <==> SwitchMarker(w, mainChain, Hashes(chain), old(marker)) == None
      ensures !crashed ==> marker == SwitchMarker(w, mainChain, Hashes(chain), old(marker)).value
    {
      hide MainOk;
      assert forall h :: h in headers ==> headers[h] == w.headerOf(h);
      ghost var hs := Hashes(chain);
      var r := FindRescanPoint();
      if r == None {
        return true;
      }
      var rHeader := headers[r.value];
      hide Valid, RescanPoint, MovedMarker;
      if !(rHeader.height + 1 < chain[0].header.height) {
        var updated := UpdateProcessedTxsBlockMarker(chain[|chain| - 1].hash);
      }
      crashed := false;
    }

    ghost function Snap(): Snapshot
      reads this
    {
      Snapshot(mainChain, headers, marker, tipChanges)
    }

    /** Updates the main chain to end in `chain`, either extending it or
        switching to it.  `relevant` says that the transactions of the new
        blocks are supplied, so that the marker may move to the new tip. */
    method ChainSwitch(f: SidechainForest, chain: seq<Node>, relevant: bool) returns (res: SwitchResult)
      requires Valid() && f.Valid() && f.w == w && OwnHeaders(w, chain)
      requires forall h :: h in Hashes(chain) ==> h in w.known
      modifies this, f`trees
      ensures Valid() && f.Valid() && f.TreeSet() <= old(f.TreeSet())
      ensures SwitchEffect(w, coinbaseMaturity, Hashes(chain), WorkOf(chain), relevant, old(Snap()), old(f.Blocks()), res, Snap(),
                           f.Blocks())
    {
      if |chain| == 0 {
        return Failed;
      }
      hide SidechainForest.Valid, Valid, SidechainForest.Blocks, SidechainForest.TreeSet, AfterPruning;
      hide Accepted, AcceptedMain, Detached, SwitchMarker, WithHeaders, FreshNodes, OwnHeaders;
      var ok, prevChain, newMain, recorded := PrepareSwitch(chain);
      if !ok {
        return Failed;
      }
      res := SwitchPrepared(f, chain, relevant, prevChain, newMain, recorded);
    }

    /** The part of ChainSwitch after all checks have passed. */
    method SwitchPrepared(f: SidechainForest, chain: seq<Node>, relevant: bool, prevChain: seq<Node>,
                          newMain: seq<Hash>, recorded: map<Hash, Header>) returns (res: SwitchResult)
      requires Valid() && f.Valid() && f.w == w
      requires chain != [] && OwnHeaders(w, chain)
      requires forall h :: h in Hashes(chain) ==> h in w.known
      requires Accepted(w, mainChain, Hashes(chain), chain[|chain| - 1].workSum)
      requires newMain == AcceptedMain(w, mainChain, Hashes(chain))
      requires recorded == WithHeaders(w, headers, Hashes(chain))
      requires DetachedNodes(w, mainChain, Hashes(chain), prevChain)
      modifies this, f`trees
      ensures Valid() && f.Valid() && f.TreeSet() <= old(f.TreeSet())
      ensures SwitchEffect(w, coinbaseMaturity, Hashes(chain), WorkOf(chain), relevant, old(Snap()), old(f.Blocks()), res, Snap(),
                           f.Blocks())
    {
      hide SidechainForest.Valid, Valid, SidechainForest.Blocks, SidechainForest.TreeSet, AfterPruning;
      hide Hashes, Tip, ChangeOf, DetachedNodes;
      hide Accepted, AcceptedMain, Detached, SwitchMarker, WithHeaders, FreshNodes, OwnHeaders;
      ChainEnds(w, chain);
      SwitchedTo(w, mainChain, chain, prevChain);
      var change := TipChange(Hashes(prevChain), Hashes(chain), chain[|chain| - 1].header.height);
      var crashed := CommitSwitch(chain, newMain, recorded, relevant);
      if crashed {
        return Crashed;
      }
      PruneAfterSwitch(f, chain);
      tipChanges := tipChanges + [change];
      res := Switched(prevChain);
    }

    /** Drops the tree of the new chain, and trees that are far behind it. */
    method PruneAfterSwitch(f: SidechainForest, chain: seq<Node>)
      requires f.Valid() && f.w == w && chain != [] && OwnHeaders(w, chain)
      modifies f`trees
      ensures f.Valid() && f.TreeSet() <= old(f.TreeSet())
      ensures f.Blocks() == AfterPruning(w, old(f.Blocks()), Hashes(chain), coinbaseMaturity)
    {
      f.PruneTree(chain[0].hash);
      f.Prune(chain[|chain| - 1].header.height, coinbaseMaturity);
    }
  }

  /** The part of the wallet a switch changes. */
  datatype Snapshot = Snapshot(main: seq<Hash>, headers: map<Hash, Header>, marker: Hash, changes: seq<TipChange>)

  /** What ChainSwitch does.  It fails, leaving everything as it was, exactly
      when the blocks are not accepted; a failed transaction rolls back. */
  ghost predicate SwitchEffect(w: World, maturity: nat, c: seq<Hash>, work: nat, relevant: bool,
                               a: Snapshot, s: set<Hash>, res: SwitchResult, b: Snapshot, s': set<Hash>)
  {
    if !Accepted(w, a.main, c, work) then
      res == Failed && b == a && s' == s
    else
      var main' := AcceptedMain(w, a.main, c);
      var marker' := if relevant then SwitchMarker(w, main', c, a.marker) else Some(a.marker);
      if marker' == None then
        res == Crashed
      else
        && res.Switched? && DetachedNodes(w, a.main, c, res.prev)
        && b == Snapshot(main', WithHeaders(w, a.headers, c), marker'.value, a.changes + [ChangeOf(w, a.main, c)])
        && s' == AfterPruning(w, s, c, maturity)
  }

  ghost function AfterPruning(w: World, s: set<Hash>, c: seq<Hash>, maturity: nat): set<Hash>
  {
    if |c| == 0 then s else Recent(w, s - TreeOf(w, s, c[0]), w.Height(Tip(c)), maturity)
  }

  /** The tip notification of a switch. */
  function ChangeOf(w: World, main: seq<Hash>, c: seq<Hash>): TipChange {
    if |c| == 0 then TipChange([], [], 0) else TipChange(Detached(w, main, c), c, w.Height(Tip(c)))
  }

  /** The blocks a switch returns to the caller. */
  ghost predicate DetachedNodes(w: World, main: seq<Hash>, c: seq<Hash>, prev: seq<Node>) {
    |c| > 0 && Hashes(prev) == Detached(w, main, c) && FreshNodes(w, prev)
  }

  /** The nodes carry their own headers. */
  ghost predicate OwnHeaders(w: World, chain: seq<Node>) {
    forall i :: 0 <= i < |chain| ==> chain[i].header == w.headerOf(chain[i].hash)
  }

  lemma OwnHeader(w: World, chain: seq<Node>, i: nat)
    requires OwnHeaders(w, chain) && i < |chain|
    ensures chain[i].header == w.headerOf(chain[i].hash) && Hashes(chain)[i] == chain[i].hash
  {
  }

  /** The work a switch compares: the last node's sum. */
  function WorkOf(chain: seq<Node>): nat {
    if chain == [] then 0 else chain[|chain| - 1].workSum
  }

  lemma SwitchedTo(w: World, main: seq<Hash>, chain: seq<Node>, prev: seq<Node>)
    requires chain != [] && OwnHeaders(w, chain) && DetachedNodes(w, main, Hashes(chain), prev)
    ensures ChangeOf(w, main, Hashes(chain)) == TipChange(Hashes(prev), Hashes(chain), chain[|chain| - 1].header.height)
  {
  }

  lemma ChainEnds(w: World, chain: seq<Node>)
    requires chain != [] && OwnHeaders(w, chain)
    ensures chain[|chain| - 1].header.height == w.Height(Tip(Hashes(chain)))
  {
  }

  lemma RecordedMain(w: World, main: seq<Hash>, headers: map<Hash, Header>)
    requires |main| > 0 && HeadersOk(w, main, headers)
    ensures forall k :: 0 <= k < |main| ==> main[k] in headers && headers[main[k]] == w.headerOf(main[k])
  {
  }

  lemma CollectedNodes(w: World, main: seq<Hash>, fork: nat, nodes: seq<Node>)
    requires fork < |main| && |nodes| == |main| - fork
    requires forall k :: fork <= k < |main| ==> nodes[k - fork] == NewBlockNode(w, main[k])
    ensures Hashes(nodes) == main[fork..] && FreshNodes(w, nodes)
  {
    forall k | 0 <= k < |nodes|
      ensures nodes[k] == NewBlockNode(w, main[fork + k])
    {
      assert nodes[fork + k - fork] == NewBlockNode(w, main[fork + k]);
    }
  }

  /** The recorded headers once those of `c` are saved. */
  ghost function WithHeaders(w: World, headers: map<Hash, Header>, c: seq<Hash>): map<Hash, Header> {
    headers + map h | h in c :: w.headerOf(h)
  }

  lemma RecordNext(w: World, headers: map<Hash, Header>, c: seq<Hash>, i: nat)
    requires i < |c|
    ensures WithHeaders(w, headers, c[..i + 1]) == WithHeaders(w, headers, c[..i])[c[i] := w.headerOf(c[i])]
    ensures c[..i + 1] == c[..i] + [c[i]]
  {
    assert c[..i + 1] == c[..i] + [c[i]];
  }

  /** Main chain blocks are recorded with their headers. */
  ghost predicate RecordedAll(w: World, main: seq<Hash>, headers: map<Hash, Header>) {
    forall h :: h in main ==> h in headers && headers[h] == w.headerOf(h)
  }

  /** The chain after attaching blocks one by one: a block must extend the chain, or
      be in it already. */
  function Linking(w: World, kept: seq<Hash>, c: seq<Hash>): (r: Option<seq<Hash>>)
    requires |kept| > 0
    ensures r.Some? ==> |r.value| > 0
  {
    if c == [] then Some(kept)
    else
      var n := |c| - 1;
      match Linking(w, kept, c[..n])
      case None => None
      case Some(main) => Linked(w, main, c[n])
  }

  function Linked(w: World, main: seq<Hash>, h: Hash): (r: Option<seq<Hash>>)
    requires |main| > 0
    ensures r.Some? ==> |r.value| > 0
  {
    if w.Height(h) < 1 then None
    else if w.Prev(h) == Tip(main) then (if w.Height(h) == |main| then Some(main + [h]) else None)
    else if w.Height(h) < |main| && main[w.Height(h)] == h then Some(main)
    else None
  }

  lemma LinkingStart(w: World, kept: seq<Hash>, headers: map<Hash, Header>, c: seq<Hash>)
    requires |kept| > 0
    ensures c[..0] == [] && Linking(w, kept, []) == Some(kept) && WithHeaders(w, headers, []) == headers
  {
  }

  lemma LinkNext(w: World, kept: seq<Hash>, c: seq<Hash>, i: nat, main: seq<Hash>)
    requires |kept| > 0 && i < |c| && Linking(w, kept, c[..i]) == Some(main)
    ensures Linking(w, kept, c[..i + 1]) == Linked(w, main, c[i])
    ensures Linked(w, main, c[i]) == None ==> Linking(w, kept, c) == None
  {
    assert c[..i + 1][..i] == c[..i];
    if Linked(w, main, c[i]) == None {
      LinkingFails(w, kept, c, i + 1);
    }
  }

  lemma {:induction false} LinkingFails(w: World, kept: seq<Hash>, c: seq<Hash>, i: nat)
    requires |kept| > 0 && i <= |c| && Linking(w, kept, c[..i]) == None
    ensures Linking(w, kept, c) == None
  {
    if i == |c| {
      assert c[..i] == c;
    } else {
      assert c[..|c| - 1][..i] == c[..i];
      LinkingFails(w, kept, c[..|c| - 1], i);
    }
  }

  lemma RecordLinked(w: World, main: seq<Hash>, headers: map<Hash, Header>, h: Hash)
    requires |main| > 0 && RecordedAll(w, main, headers)
    ensures RecordedAll(w, main + [h], headers[h := w.headerOf(h)])
    ensures h in main ==> headers[h := w.headerOf(h)] == headers
  {
  }

  /** What is kept of the main chain, below the first block. */
  function Kept(w: World, main: seq<Hash>, c: seq<Hash>): seq<Hash>
    requires |c| > 0
  {
    main[..ForkHeight(w, main, c)]
  }

  lemma KeptIs(w: World, main: seq<Hash>, c: seq<Hash>, kept: seq<Hash>)
    requires |c| > 0 && kept == if w.Height(c[0]) < |main| then main[..w.Height(c[0])] else main
    ensures kept == Kept(w, main, c)
    ensures Detached(w, main, c) == if w.Height(c[0]) < |main| then main[w.Height(c[0])..] else []
  {
  }

  /** A switch to these blocks goes through: they outweigh what they replace, and can
      be attached to what is kept. */
  ghost predicate Accepted(w: World, main: seq<Hash>, c: seq<Hash>, work: nat) {
    && |c| > 0 && |Kept(w, main, c)| > 0
    && (w.Height(c[0]) < |main| ==> work > w.SumWork(main[w.Height(c[0])..]))
    && Linking(w, Kept(w, main, c), c) != None
  }

  ghost function AcceptedMain(w: World, main: seq<Hash>, c: seq<Hash>): seq<Hash> {
    if |c| > 0 && |Kept(w, main, c)| > 0 && Linking(w, Kept(w, main, c), c) != None
    then Linking(w, Kept(w, main, c), c).value else main
  }

  /** A parent-linked branch above what is kept is attached as a whole, or not. */
  lemma {:induction false} LinkingBranch(w: World, kept: seq<Hash>, c: seq<Hash>)
    requires MainOk(w, kept) && w.IsChain(c) && |c| > 0 && |kept| <= w.Height(c[0])
    ensures Linking(w, kept, c) == if w.IsParent(Tip(kept), c[0]) then Some(kept + c) else None
  {
    var n := |c| - 1;
    MainHeights(w, kept);
    if n == 0 {
      assert c[..0] == [] && kept + c == kept + [c[0]];
    } else {
      LinkingBranch(w, kept, c[..n]);
      ChainHeights(w, c, n);
      assert w.IsParent(c[n - 1], c[n]);
      assert kept + c[..n] + [c[n]] == kept + c;
    }
  }

  /** For a branch, to be accepted is to connect. */
  lemma AcceptedBranch(w: World, main: seq<Hash>, c: seq<Hash>)
    requires MainOk(w, main) && w.IsChain(c)
    ensures Accepted(w, main, c, w.SumWork(c)) <==> Connects(w, main, c)
    ensures Connects(w, main, c) ==> AcceptedMain(w, main, c) == SwitchedMain(w, main, c)
  {
    if |c| > 0 && ForkHeight(w, main, c) > 0 {
      MainHeights(w, main);
      KeptOk(w, main, c);
      LinkingBranch(w, Kept(w, main, c), c);
    }
  }

  lemma KeptOk(w: World, main: seq<Hash>, c: seq<Hash>)
    requires MainOk(w, main) && |c| > 0 && ForkHeight(w, main, c) > 0
    ensures MainOk(w, Kept(w, main, c)) && Kept(w, main, c)[0] == main[0]
  {
    var kept := Kept(w, main, c);
    forall i | 0 < i < |kept|
      ensures w.IsParent(kept[i - 1], kept[i])
    {
      assert w.IsParent(main[i - 1], main[i]);
    }
  }

  /** Attached blocks form a main chain again, with all of them in it. */
  lemma {:induction false} LinkingOk(w: World, kept: seq<Hash>, c: seq<Hash>)
    requires MainOk(w, kept) && Linking(w, kept, c) != None && forall h :: h in c ==> h in w.known
    ensures var main := Linking(w, kept, c).value;
            && MainOk(w, main) && main[0] == kept[0]
            && (forall h :: h in c ==> h in main && w.Height(h) > 0)
            && (forall h :: h in main ==> h in kept || h in c)
  {
    if c != [] {
      var n := |c| - 1;
      LinkingOk(w, kept, c[..n]);
      var main := Linking(w, kept, c[..n]).value;
      MainHeights(w, main);
      assert w.Prev(c[n]) == Tip(main) && w.Height(c[n]) == |main| ==> w.IsParent(Tip(main), c[n]);
      forall h | h in c
        ensures h == c[n] || h in c[..n]
      {
      }
    }
  }

  /** Attaching blocks again changes nothing. */
  lemma {:induction false} LinkingTwice(w: World, kept: seq<Hash>, c: seq<Hash>, d: seq<Hash>)
    requires MainOk(w, kept) && Linking(w, kept, c) != None && forall h :: h in c ==> h in w.known
    requires forall h :: h in d ==> h in c
    ensures Linking(w, kept, c + d) == Linking(w, kept, c)
  {
    if d == [] {
      assert c + d == c;
    } else {
      var n := |d| - 1;
      assert d[n] in c;
      LinkingTwice(w, kept, c, d[..n]);
      LinkingOk(w, kept, c);
      hide MainOk;
      LinkedAgain(w, Linking(w, kept, c).value, d[n]);
      assert (c + d)[..|c + d| - 1] == c + d[..n];
    }
  }

  lemma LinkedAgain(w: World, main: seq<Hash>, h: Hash)
    requires MainOk(w, main) && h in main && w.Height(h) > 0
    ensures Linked(w, main, h) == Some(main)
  {
    MainHeights(w, main);
    var i :| 0 <= i < |main| && main[i] == h;
    assert w.IsParent(main[i - 1], main[i]);
  }

  /** The recorded headers are right, cover the main chain, and lead back to its
      genesis block. */
  ghost predicate HeadersOk(w: World, main: seq<Hash>, headers: map<Hash, Header>)
    requires |main| > 0
  {
    && headers.Keys <= w.known
    && (forall h :: h in headers ==> headers[h] == w.headerOf(h))
    && (forall h :: h in main ==> h in headers)
    && (forall h {:trigger w.Prev(h) in headers} :: h in headers ==>
          if w.Height(h) == 0 then h == main[0] else w.Prev(h) in headers)
  }

  ghost function Flatten(batches: seq<seq<Hash>>): seq<Hash> {
    if batches == [] then [] else Flatten(batches[..|batches| - 1]) + batches[|batches| - 1]
  }

  lemma FlattenOne(batches: seq<seq<Hash>>, b: seq<Hash>)
    ensures Flatten(batches + [b]) == Flatten(batches) + b
  {
    assert (batches + [b])[..|batches|] == batches;
  }

  lemma BatchInMain(w: World, main: seq<Hash>, lo: nat, b: seq<Hash>)
    requires MainOk(w, main) && lo + |b| <= |main| && b == main[lo..lo + |b|] && b != []
    ensures forall x :: x in b ==> x in main
    ensures w.Height(b[|b| - 1]) == lo + |b| - 1
  {
    MainHeights(w, main);
    assert b[|b| - 1] == main[lo + |b| - 1];
  }

  /** Every recorded block descends from the genesis block. */
  lemma {:induction false} RecordedIsRooted(w: World, main: seq<Hash>, headers: map<Hash, Header>, h: Hash)
    requires MainOk(w, main) && w.Linked() && HeadersOk(w, main, headers) && h in headers
    ensures Rooted(w, main[0], h)
    decreases w.Height(h)
  {
    if w.Height(h) == 0 {
      MainIsBranch(w, main, 0);
    } else {
      assert w.Prev(h) in headers && w.Prev(h) in w.known;
      assert Attached(w, w.known, h);
      RecordedIsRooted(w, main, headers, w.Prev(h));
    }
  }

  lemma MarkerReaches(w: World, main: seq<Hash>, headers: map<Hash, Header>, marker: Hash, h: Hash)
    requires MainOk(w, main) && w.Linked() && HeadersOk(w, main, headers)
    requires marker in headers && h in main
    ensures w.Height(MainAncestor(w, main, MovedMarker(w, main, marker, h))) >= w.Height(h)
  {
  }

  lemma NothingLeft(w: World, main: seq<Hash>, headers: map<Hash, Header>, marker: Hash)
    requires MainOk(w, main) && w.Linked() && HeadersOk(w, main, headers) && marker in headers
    requires |main| == 1 || w.Height(MainAncestor(w, main, marker)) >= |main| - 1
    ensures RescanPoint(w, main, marker) == None
  {
    RecordedIsRooted(w, main, headers, marker);
    AncestorFacts(w, main, marker);
    MainHeights(w, main);
  }

  method CopyHashes(main: seq<Hash>, first: nat, limit: nat) returns (hashes: seq<Hash>)
    requires first <= |main|
    ensures hashes == main[first..if first + limit < |main| then first + limit else |main|]
  {
    hashes := [];
    var height := first;
    while |hashes| < limit && height < |main|
      invariant first <= height <= |main| && |hashes| == height - first <= limit
      invariant hashes == main[first..height]
      decreases |main| - height
    {
      hashes := hashes + [main[height]];
      height := height + 1;
    }
  }

  /** The batches so far cover heights `low` up to `height`. */
  ghost predicate Covered(w: World, main: seq<Hash>, low: nat, from: Hash, height: nat, inclusive: bool, batches: seq<seq<Hash>>) {
    && from in main && 0 < low && height <= |main|
    && (forall b :: b in batches ==> 0 < |b| <= MAX_BLOCKS_PER_RESCAN)
    && if inclusive then
         batches == [] && height == w.Height(from) && (height == low || height == 0 == low - 1) && height < |main|
       else
         low < height == w.Height(from) + 1 && Flatten(batches) == main[low..height]
  }

  /** What coverage means at the start of a round, and at the end when nothing
      is left to read. */
  lemma CoveredFacts(w: World, main: seq<Hash>, low: nat, from: Hash, height: nat, inclusive: bool, batches: seq<seq<Hash>>)
    requires Covered(w, main, low, from, height, inclusive, batches)
    ensures from in main && height == w.Height(from) + (if inclusive then 0 else 1) && height <= |main|
    ensures forall b :: b in batches ==> 0 < |b| <= MAX_BLOCKS_PER_RESCAN
    ensures (if height == 0 then 1 else height) == |main| ==> low <= |main| && Flatten(batches) == main[low..]
    ensures inclusive ==> height < |main|
  {
    if (if height == 0 then 1 else height) == |main| {
      assert main[low..|main|] == main[low..];
    }
  }

  lemma CoverMore(w: World, main: seq<Hash>, low: nat, from: Hash, height: nat, inclusive: bool, batches: seq<seq<Hash>>,
                  first: nat, blocks: seq<Hash>)
    requires Covered(w, main, low, from, height, inclusive, batches)
    requires first == (if height == 0 then 1 else height) && first + |blocks| <= |main|
    requires 0 < |blocks| <= MAX_BLOCKS_PER_RESCAN && blocks == main[first..first + |blocks|]
    requires w.Height(blocks[|blocks| - 1]) == first + |blocks| - 1
    ensures Covered(w, main, low, blocks[|blocks| - 1], first + |blocks|, false, batches + [blocks])
  {
    FlattenOne(batches, blocks);
    JoinSlices(main, low, first, first + |blocks|);
    assert inclusive ==> first == low && main[low..first] == [];
    assert blocks[|blocks| - 1] == main[first + |blocks| - 1];
  }

  lemma JoinSlices(c: seq<Hash>, lo: nat, mid: nat, hi: nat)
    requires lo <= mid <= hi <= |c|
    ensures c[lo..hi] == c[lo..mid] + c[mid..hi]
  {
  }

  /** Newly created nodes, not yet in a forest. */
  ghost predicate FreshNodes(w: World, nodes: seq<Node>) {
    forall i :: 0 <= i < |nodes| ==> nodes[i].header == w.headerOf(nodes[i].hash) && nodes[i].parent == NoParent
  }

  lemma SumWorkFrom(w: World, c: seq<Hash>, i: nat)
    requires i < |c|
    ensures w.SumWork(c[i..]) == w.Work(c[i]) + w.SumWork(c[i + 1..])
  {
    assert c[i..] == [c[i]] + c[i + 1..];
    SumWorkConcat(w, [c[i]], c[i + 1..]);
    assert [c[i]][..0] == [];
  }

  /** The branch extends the main chain below its first block. */
  ghost predicate Extends(w: World, main: seq<Hash>, c: seq<Hash>) {
    && |c| > 0 && 0 < w.Height(c[0]) <= |main|
    && w.Prev(c[0]) == main[w.Height(c[0]) - 1]
  }

  /** When a switch to a branch goes through: it extends the main chain, and
      outweighs the blocks it replaces. */
  ghost predicate Connects(w: World, main: seq<Hash>, c: seq<Hash>) {
    && Extends(w, main, c)
    && (w.Height(c[0]) < |main| ==> w.SumWork(c) > w.SumWork(main[w.Height(c[0])..]))
  }

  /** A best choice always connects, so ChainSwitch accepts it. */
  lemma BestChoiceConnects(w: World, main: seq<Hash>, s: set<Hash>, c: seq<Hash>)
    requires ChainInv(w, main, s) && BestChoice(w, main, s, c)
    ensures Connects(w, main, c) && w.IsChain(c)
  {
    ChoiceFacts(w, main, s, c);
    SwitchAddsWork(w, main, s, c);
  }

  /** Attaching accepted blocks keeps the stored chain consistent. */
  lemma SwitchStaysValid(w: World, main: seq<Hash>, headers: map<Hash, Header>, marker: Hash, c: seq<Hash>, work: nat)
    requires w.Linked() && MainOk(w, main) && HeadersOk(w, main, headers) && marker in headers
    requires Accepted(w, main, c, work) && forall h :: h in c ==> h in w.known
    ensures var main' := AcceptedMain(w, main, c);
            && MainOk(w, main') && HeadersOk(w, main', WithHeaders(w, headers, c))
            && marker in WithHeaders(w, headers, c) && Tip(c) in main'
  {
    hide MainOk, HeadersOk, Linking, WithHeaders;
    var kept := Kept(w, main, c);
    KeptOk(w, main, c);
    LinkingOk(w, kept, c);
    assert forall h :: h in kept ==> h in main;
    AttachedHeaders(w, main, headers, AcceptedMain(w, main, c), c);
    StaysRecorded(w, headers, c, marker);
  }

  lemma StaysRecorded(w: World, headers: map<Hash, Header>, c: seq<Hash>, h: Hash)
    requires h in headers
    ensures h in WithHeaders(w, headers, c)
  {
  }

  /** Recording the headers of attached blocks. */
  lemma AttachedHeaders(w: World, main: seq<Hash>, headers: map<Hash, Header>, main': seq<Hash>, c: seq<Hash>)
    requires |main| > 0 && HeadersOk(w, main, headers) && MainOk(w, main') && main'[0] == main[0]
    requires forall h :: h in c ==> h in w.known && h in main' && w.Height(h) > 0
    requires forall h :: h in main' ==> h in main || h in c
    ensures HeadersOk(w, main', WithHeaders(w, headers, c))
  {
    assert |main'| > 0;
    hide MainOk;
    var headers' := WithHeaders(w, headers, c);
    forall h | h in headers'
      ensures h in w.known && headers'[h] == w.headerOf(h)
      ensures if w.Height(h) == 0 then h == main'[0] else w.Prev(h) in headers'
    {
      if h in c {
        LinkedPrev(w, main', h);
        assert w.Prev(h) in headers';
      } else {
        RecordedBack(w, main, headers, h);
      }
    }
  }

  lemma RecordedBack(w: World, main: seq<Hash>, headers: map<Hash, Header>, h: Hash)
    requires |main| > 0 && HeadersOk(w, main, headers) && h in headers
    ensures h in w.known && headers[h] == w.headerOf(h)
    ensures if w.Height(h) == 0 then h == main[0] else w.Prev(h) in headers
  {
    assert w.Prev(h) in headers || w.Height(h) == 0;
  }

  lemma LinkedPrev(w: World, main: seq<Hash>, h: Hash)
    requires MainOk(w, main) && h in main && w.Height(h) > 0
    ensures w.Prev(h) in main
  {
    MainHeights(w, main);
    var i :| 0 <= i < |main| && main[i] == h;
    assert w.IsParent(main[i - 1], main[i]);
  }

  lemma ConnectedMain(w: World, main: seq<Hash>, c: seq<Hash>)
    requires MainOk(w, main) && Extends(w, main, c) && w.IsChain(c)
    requires forall h :: h in c ==> h in w.known
    ensures MainOk(w, SwitchedMain(w, main, c)) && SwitchedMain(w, main, c)[0] == main[0]
  {
    MainHeights(w, main);
    var f := ForkHeight(w, main, c);
    var main' := SwitchedMain(w, main, c);
    forall i | 0 < i < |main'|
      ensures w.IsParent(main'[i - 1], main'[i])
    {
      if i > f {
        assert main'[i] == c[i - f] && main'[i - 1] == c[i - f - 1];
      }
    }
  }

  /** Asking a tree of a forest for its best branch changes only its memo. */
  method BestBranch(f: SidechainForest, i: nat, t: RootedTree) returns (branch: seq<Node>, branchWork: nat)
    requires f.Valid() && i < |f.trees| && t == f.trees[i]
    modifies t`bestChain
    ensures f.Valid() && f.trees == old(f.trees) && f.Blocks() == old(f.Blocks())
    ensures RootHashes(f.Values()) == RootHashes(old(f.Values()))
    ensures f.Values()[i].IsBest(f.w, branch) && branchWork == branch[|branch| - 1].workSum
  {
    ghost var ts := f.Values();
    RootInForest(f.w, ts, i);
    branch, branchWork := t.Best(f.w);
    hide ForestWf, ForestBlocks, Tree.Wf, Tree.Blocks, Tree.IsBest;
    ghost var us := ts[i := ts[i].(bestChain := branch)];
    assert f.Values() == us;
    MemoKeepsForest(f.w, ts, i, branch);
  }

  /** The work of the main chain blocks above a height. */
  ghost function WorkAbove(w: World, main: seq<Hash>, i: nat): (work: nat)
    requires i < |main|
    ensures i == |main| - 1 ==> work == 0
  {
    w.SumWork(main[i + 1..])
  }

  lemma TotalFromFork(w: World, main: seq<Hash>, i: nat)
    requires MainOk(w, main) && i < |main|
    ensures Total(w, Tip(main)) == Total(w, main[i]) + WorkAbove(w, main, i)
  {
    TotalAlong(w, main, i, |main| - 1);
    assert main[i + 1..|main| - 1 + 1] == main[i + 1..];
  }

  lemma StepDown(w: World, main: seq<Hash>, j: nat)
    requires 0 < j < |main| && w.IsChain(main)
    ensures w.Prev(main[j]) == main[j - 1]
    ensures WorkAbove(w, main, j - 1) == w.Work(main[j]) + WorkAbove(w, main, j)
  {
    assert w.IsParent(main[j - 1], main[j]);
    assert main[j..] == [main[j]] + main[j + 1..];
    SumWorkConcat(w, [main[j]], main[j + 1..]);
    assert [main[j]][..0] == [];
  }

  /** The nodes of a branch carry their own headers and work sums. */
  ghost predicate NodesOf(w: World, chain: seq<Node>) {
    && |chain| > 0
    && (forall i :: 0 <= i < |chain| ==> chain[i].header == w.headerOf(chain[i].hash))
    && chain[|chain| - 1].workSum == w.SumWork(Hashes(chain))
  }

  lemma RootInForest(w: World, ts: seq<Tree>, i: nat)
    requires ForestWf(w, ts) && i < |ts|
    ensures ts[i].Wf(w) && ts[i].root.header == w.headerOf(ts[i].root.hash)
  {
  }

  lemma MemoKeepsForest(w: World, ts: seq<Tree>, i: nat, c: seq<Node>)
    requires ForestWf(w, ts) && i < |ts| && ts[i].(bestChain := c).IsBest(w, c)
    ensures ForestWf(w, ts[i := ts[i].(bestChain := c)])
    ensures ForestBlocks(ts[i := ts[i].(bestChain := c)]) == ForestBlocks(ts)
  {
    var u := ts[i].(bestChain := c);
    MemoKeepsTree(w, ts[i], c);
    assert u.Blocks() == ts[i].Blocks() + {};
    BlocksOfUpdate(ts, i, u, {});
    UpdateKeepsTrees(w, ts, i, u, {});
  }

  lemma MemoKeepsTree(w: World, t: Tree, c: seq<Node>)
    requires t.Wf(w) && t.(bestChain := c).IsBest(w, c)
    ensures t.(bestChain := c).Wf(w)
  {
    var u := t.(bestChain := c);
    assert forall h :: h in t.Blocks() ==> u.At(h) == t.At(h);
    forall h | h in u.children
      ensures u.ChildOk(w, h)
    {
      assert t.ChildOk(w, h);
    }
    assert forall h :: u.Childless(w, h) == t.Childless(w, h);
  }

  ghost function RootHashes(ts: seq<Tree>): (r: seq<Hash>)
    ensures |r| == |ts|
    ensures forall i :: 0 <= i < |ts| ==> r[i] == ts[i].root.hash
  {
    seq(|ts|, i requires 0 <= i < |ts| => ts[i].root.hash)
  }

  /** `branch` is a real branch that adds `work` to the main chain. */
  ghost predicate Adds(w: World, main: seq<Hash>, s: set<Hash>, branch: seq<Node>, work: int)
    requires |main| > 0 && |branch| > 0
  {
    var tip := Tip(Hashes(branch));
    && NodesOf(w, branch)
    && OnSidechain(w, main, s, tip)
    && Hashes(branch) == BranchTo(w, s, tip)
    && work == Total(w, tip) - Total(w, Tip(main))
  }

  /** Nothing above root `r` adds more than `work`. */
  ghost predicate NoneAddsMore(w: World, main: seq<Hash>, s: set<Hash>, r: Hash, work: int)
    requires |main| > 0
  {
    forall h :: OnSidechain(w, main, s, h) && RootOf(w, s, h) == r ==> Total(w, h) - Total(w, Tip(main)) <= work
  }

  ghost predicate BestOfRoot(w: World, main: seq<Hash>, s: set<Hash>, r: Hash, branch: seq<Node>, work: int)
    requires |main| > 0
  {
    && NoneAddsMore(w, main, s, r, work)
    && (if branch == [] then work == 0 else Adds(w, main, s, branch, work))
  }

  /** `chain` is the best branch above the given roots, and adds `workDiff`. */
  ghost predicate BestSoFar(w: World, main: seq<Hash>, s: set<Hash>, roots: seq<Hash>, chain: seq<Node>, workDiff: int)
    requires |main| > 0
  {
    && (if chain == [] then workDiff == 0 else workDiff > 0 && Adds(w, main, s, chain, workDiff))
    && (forall r :: r in roots ==> NoneAddsMore(w, main, s, r, workDiff))
  }

  /** A tree's best branch, read as a branch of the block set. */
  lemma BestOfTree(w: World, ts: seq<Tree>, i: nat, c: seq<Node>)
    requires ForestWf(w, ts) && i < |ts| && ts[i].IsBest(w, c)
    ensures var s := ForestBlocks(ts);
            var last := Tip(Hashes(c));
            && last in s && RootOf(w, s, last) == ts[i].root.hash
            && Hashes(c) == BranchTo(w, s, last)
            && c[|c| - 1].workSum == WorkTo(w, s, last)
            && NodesOf(w, c)
            && (forall h :: h in ts[i].Blocks() ==>
                  RootOf(w, s, h) == ts[i].root.hash && WorkTo(w, s, h) <= WorkTo(w, s, last))
  {
    hide ForestBlocks, TreeOf, RootOf, BranchTo, WorkTo, Tree.Wf, Tree.Blocks, Tree.At, Tree.IsBest, Headers.World.IsChain;
    hide ForestWf;
    var s := ForestBlocks(ts);
    TreeIsComponent(w, ts, i);
    BestFacts(w, ts[i], c);
    var last := Tip(Hashes(c));
    TreeFacts(w, ts, i, c);
    InTree(w, s, ts[i]);
    ChainIsBranch(w, s, Hashes(c));
    BranchIsChain(w, s, last);
  }

  lemma BestFacts(w: World, t: Tree, c: seq<Node>)
    requires t.IsBest(w, c)
    ensures |c| > 0 && w.IsChain(Hashes(c)) && c[0] == t.root && forall k :: 0 <= k < |c| ==> c[k].hash in t.Blocks()
    ensures c[|c| - 1] == t.At(c[|c| - 1].hash) && forall h :: h in t.Blocks() ==> t.At(h).workSum <= c[|c| - 1].workSum
  {
  }

  lemma InTree(w: World, s: set<Hash>, t: Tree)
    requires t.Blocks() == TreeOf(w, s, t.root.hash)
    ensures forall h :: h in t.Blocks() <==> h in s && RootOf(w, s, h) == t.root.hash
  {
  }

  lemma TreeFacts(w: World, ts: seq<Tree>, i: nat, c: seq<Node>)
    requires ForestWf(w, ts) && i < |ts| && ts[i].IsBest(w, c)
    ensures forall k :: 0 <= k < |c| ==> c[k].header == w.headerOf(c[k].hash) && c[k].hash in ForestBlocks(ts)
    ensures !Attached(w, ForestBlocks(ts), ts[i].root.hash)
  {
    forall k | 0 <= k < |c|
      ensures c[k].header == w.headerOf(c[k].hash) && c[k].hash in ForestBlocks(ts)
    {
      NodeHeader(w, ts[i], c[k].hash);
    }
  }

  lemma BestIsBestOfRoot(w: World, main: seq<Hash>, ts: seq<Tree>, i: nat, branch: seq<Node>, work: int)
    requires ForestWf(w, ts) && i < |ts| && ts[i].IsBest(w, branch)
    requires ChainInv(w, main, ForestBlocks(ts))
    requires w.Prev(ts[i].root.hash) in main
    requires work == Total(w, w.Prev(ts[i].root.hash)) + branch[|branch| - 1].workSum - Total(w, Tip(main))
    ensures BestOfRoot(w, main, ForestBlocks(ts), ts[i].root.hash, branch, work)
  {
    var s := ForestBlocks(ts);
    BestOfTree(w, ts, i, branch);
    TreeIsComponent(w, ts, i);
    forall h | h in s && RootOf(w, s, h) == ts[i].root.hash
      ensures Total(w, h) <= work + Total(w, Tip(main))
    {
      assert h in ts[i].Blocks();
      TotalOfBranch(w, s, h);
    }
    TotalOfBranch(w, s, Tip(Hashes(branch)));
  }

  lemma OrphansAddNothing(w: World, main: seq<Hash>, s: set<Hash>, r: Hash)
    requires |main| > 0 && w.Prev(r) !in main
    ensures BestOfRoot(w, main, s, r, [], 0)
  {
  }

  lemma TakeBranch(w: World, main: seq<Hash>, s: set<Hash>, roots: seq<Hash>, i: nat, branch: seq<Node>,
                   chain: seq<Node>, workDiff: int, work: int)
    requires |main| > 0 && i < |roots|
    requires BestSoFar(w, main, s, roots[..i], chain, workDiff)
    requires BestOfRoot(w, main, s, roots[i], branch, work)
    ensures if work > workDiff then BestSoFar(w, main, s, roots[..i + 1], branch, work)
            else BestSoFar(w, main, s, roots[..i + 1], chain, workDiff)
  {
    assert roots[..i + 1] == roots[..i] + [roots[i]];
  }

  lemma NothingSoFar(w: World, main: seq<Hash>, s: set<Hash>, roots: seq<Hash>)
    requires |main| > 0 && roots == []
    ensures BestSoFar(w, main, s, roots, [], 0)
  {
  }

  lemma BestFound(w: World, main: seq<Hash>, f: SidechainForest, roots: seq<Hash>, chain: seq<Node>, workDiff: int)
    requires |main| > 0 && f.Valid() && f.w == w && roots == RootHashes(f.Values())
    requires BestSoFar(w, main, f.Blocks(), roots, chain, workDiff)
    ensures chain == [] ==> NoBetter(w, main, f.Blocks())
    ensures chain != [] ==> BestChoice(w, main, f.Blocks(), Hashes(chain)) && NodesOf(w, chain)
  {
    var ts := f.Values();
    var s := f.Blocks();
    hide NodesOf, Tree.Wf, Tree.Blocks, BestChoice, NoBetter, OnSidechain, Total, NoneAddsMore;
    forall h | OnSidechain(w, main, s, h)
      ensures Total(w, h) - Total(w, Tip(main)) <= workDiff
    {
      var j := TreeHolding(w, main, ts, h);
      assert roots[j] == ts[j].root.hash && roots[j] in roots;
      NoneAbove(w, main, s, roots[j], workDiff, h);
    }
    hide SidechainForest.Valid, ForestBlocks;
    BestMeans(w, main, s, chain, workDiff);
  }

  lemma TreeHolding(w: World, main: seq<Hash>, ts: seq<Tree>, h: Hash) returns (j: nat)
    requires ForestWf(w, ts) && OnSidechain(w, main, ForestBlocks(ts), h)
    ensures j < |ts| && RootOf(w, ForestBlocks(ts), h) == ts[j].root.hash
  {
    hide Tree.Wf, Tree.Blocks;
    j :| 0 <= j < |ts| && h in ts[j].Blocks();
    TreeIsComponent(w, ts, j);
    assert h in TreeOf(w, ForestBlocks(ts), ts[j].root.hash);
  }

  lemma NoneAbove(w: World, main: seq<Hash>, s: set<Hash>, r: Hash, work: int, h: Hash)
    requires |main| > 0 && NoneAddsMore(w, main, s, r, work) && OnSidechain(w, main, s, h) && RootOf(w, s, h) == r
    ensures Total(w, h) - Total(w, Tip(main)) <= work
  {
  }

  lemma BestMeans(w: World, main: seq<Hash>, s: set<Hash>, chain: seq<Node>, workDiff: int)
    requires |main| > 0
    requires if chain == [] then workDiff == 0 else workDiff > 0 && Adds(w, main, s, chain, workDiff)
    requires forall h :: OnSidechain(w, main, s, h) ==> Total(w, h) - Total(w, Tip(main)) <= workDiff
    ensures chain == [] ==> NoBetter(w, main, s)
    ensures chain != [] ==> BestChoice(w, main, s, Hashes(chain)) && NodesOf(w, chain)
  {
    hide NodesOf, OnSidechain, Total;
  }
}

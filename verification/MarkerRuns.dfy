/** Every interleaving of header announcements, chain switches and a running
    rescan: the processed-transactions marker never gets ahead of what has been
    scanned. */
module MarkerRuns {
  import opened Headers
  import opened BlockSets
  import opened RootedTrees
  import opened Forests
  import opened MainChains
  import opened Markers
  import opened Options

  /** The rescan in progress, if any: about to read a batch from a block on, or
      part of the way through a batch. */
  datatype Rescan =
    | Idle
    | From(at: Hash, inclusive: bool)
    | Batch(blocks: seq<Hash>, pos: nat)

  /** `scanned` collects every block ever tested for relevant transactions, and
      `announced` every header ever received. */
  datatype State = State(main: seq<Hash>, forest: set<Hash>, marker: Hash, scanned: set<Hash>, rescan: Rescan,
                         announced: set<Hash>)

  /** Headers arrive; those of the main chain are passed over. */
  ghost predicate AddStep(w: World, s: State, s': State) {
    exists added: set<Hash> {:trigger s.announced + added} ::
      && added <= w.known
      && s' == s.(forest := s.forest + (added - Members(s.main)), announced := s.announced + added)
  }

  /** A switch; `withTxs` says the new blocks were scanned first, which the
      callers do only when no rescan is pending. */
  ghost predicate SwitchStep(w: World, maturity: nat, s: State, s': State, chain: seq<Hash>, withTxs: bool) {
    && |s.main| > 0 && BestChoice(w, s.main, s.forest, chain)
    && (withTxs ==> RescanPoint(w, s.main, s.marker) == None)
    && var main' := SwitchedMain(w, s.main, chain);
       var forest' := SwitchedForest(w, s.main, s.forest, chain, maturity);
       if withTxs then
         && SwitchMarker(w, main', chain, s.marker).Some?
         && s' == s.(main := main', forest := forest', marker := SwitchMarker(w, main', chain, s.marker).value,
                     scanned := s.scanned + Members(chain))
       else
         s' == s.(main := main', forest := forest')
  }

  /** The main chain block at this height is at or below the rescan point; with
      nothing pending every block is. */
  predicate AtOrBelowPoint(w: World, s: State, height: nat) {
    height <= w.Height(MainAncestor(w, s.main, s.marker)) + 1
  }

  /** A rescan starts at a main chain height, anywhere up to the rescan point. */
  ghost predicate StartStep(w: World, s: State, s': State, height: nat) {
    && height < |s.main| && AtOrBelowPoint(w, s, height)
    && s' == s.(rescan := From(s.main[height], true))
  }

  /** The next batch of main chain hashes; the genesis block is left out. */
  function NextBatch(w: World, main: seq<Hash>, first: nat): seq<Hash>
    requires first <= |main|
  {
    var end := if first + MAX_BLOCKS_PER_RESCAN < |main| then first + MAX_BLOCKS_PER_RESCAN else |main|;
    if first == 0 && end > 0 then main[1..end] else main[first..end]
  }

  /** Reading a batch fails, and ends the rescan, when its start has left the
      main chain. */
  ghost predicate ReadStep(w: World, s: State, s': State) {
    && s.rescan.From?
    && (if s.rescan.at in s.main then exists i :: ReadAt(w, s, s', i) else s' == s.(rescan := Idle))
  }

  ghost predicate ReadAt(w: World, s: State, s': State, i: nat) {
    && s.rescan.From? && i < |s.main| && s.main[i] == s.rescan.at
    && var b := NextBatch(w, s.main, if s.rescan.inclusive then i else i + 1);
       s' == s.(rescan := if b == [] then Idle else Batch(b, 0))
  }

  /** One block of the batch is tested.  When it holds relevant transactions the
      marker is moved to it, unless it has left the main chain. */
  ghost predicate ScanStep(w: World, s: State, s': State, relevant: bool) {
    && s.rescan.Batch? && s.rescan.pos < |s.rescan.blocks|
    && var b := s.rescan.blocks[s.rescan.pos];
       var t := s.(scanned := s.scanned + {b}, rescan := Batch(s.rescan.blocks, s.rescan.pos + 1));
       if !relevant then s' == t
       else if b in s.main then s' == t.(marker := MovedMarker(w, s.main, s.marker, b))
       else s' == t.(rescan := Idle)
  }

  /** A finished batch moves the marker to its last block. */
  ghost predicate FinishStep(w: World, s: State, s': State) {
    && s.rescan.Batch? && s.rescan.pos == |s.rescan.blocks| > 0
    && var last := s.rescan.blocks[|s.rescan.blocks| - 1];
       if last in s.main
       then s' == s.(marker := MovedMarker(w, s.main, s.marker, last), rescan := From(last, false))
       else s' == s.(rescan := Idle)
  }

  ghost predicate Step(w: World, maturity: nat, s: State, s': State) {
    || AddStep(w, s, s')
    || (exists chain, withTxs :: SwitchStep(w, maturity, s, s', chain, withTxs))
    || (exists height :: StartStep(w, s, s', height))
    || ReadStep(w, s, s')
    || (exists relevant :: ScanStep(w, s, s', relevant))
    || FinishStep(w, s, s')
    || s' == s.(rescan := Idle)
  }

  ghost predicate RescanOk(w: World, genesis: Hash, scanned: set<Hash>, r: Rescan) {
    match r
    case Idle => true
    case From(at, inclusive) =>
      && Rooted(w, genesis, at)
      && ScannedThrough(w, scanned, if inclusive && at != genesis then w.Prev(at) else at)
    case Batch(blocks, pos) =>
      && |blocks| > 0 && pos <= |blocks| && w.IsChain(blocks)
      && (forall b :: b in blocks ==> Rooted(w, genesis, b) && b != genesis)
      && ScannedThrough(w, scanned, if pos == 0 then w.Prev(blocks[0]) else blocks[pos - 1])
  }

  ghost predicate Inv(w: World, genesis: Hash, s: State) {
    && ChainInv(w, s.main, s.forest) && s.main[0] == genesis
    && Rooted(w, genesis, s.marker)
    && Total(w, s.marker) <= Total(w, Tip(s.main))
    && ScannedThrough(w, s.scanned, s.marker)
    && RescanOk(w, genesis, s.scanned, s.rescan)
    && s.forest <= s.announced && Members(s.main) <= s.announced
  }

  lemma MovedMarkerOk(w: World, genesis: Hash, s: State, h: Hash)
    requires Inv(w, genesis, s) && h in s.main
    requires ScannedThrough(w, s.scanned, h)
    ensures var m := MovedMarker(w, s.main, s.marker, h);
            Rooted(w, genesis, m) && Total(w, m) <= Total(w, Tip(s.main)) && ScannedThrough(w, s.scanned, m)
  {
    var i :| 0 <= i < |s.main| && s.main[i] == h;
    MainIsBranch(w, s.main, i);
    TotalAlong(w, s.main, i, |s.main| - 1);
  }

  /** More scanning never hurts. */
  lemma ScanMore(w: World, genesis: Hash, scanned: set<Hash>, more: set<Hash>, r: Rescan)
    requires RescanOk(w, genesis, scanned, r) && scanned <= more
    ensures RescanOk(w, genesis, more, r)
  {
  }

  lemma AddKeepsInv(w: World, genesis: Hash, s: State, s': State)
    requires Inv(w, genesis, s) && AddStep(w, s, s')
    ensures Inv(w, genesis, s')
  {
  }

  lemma SwitchKeepsMarker(w: World, maturity: nat, genesis: Hash, s: State, s': State, chain: seq<Hash>, withTxs: bool)
    requires Inv(w, genesis, s) && w.PositiveWork() && SwitchStep(w, maturity, s, s', chain, withTxs)
    ensures Inv(w, genesis, s')
    ensures withTxs ==> s'.marker == Tip(s'.main)
  {
    SwitchKeepsInv(w, s.main, s.forest, chain, maturity);
    SwitchAddsWork(w, s.main, s.forest, chain);
    ChoiceFacts(w, s.main, s.forest, chain);
    var main' := s'.main;
    assert main'[0] == s.main[0];
    ScanMore(w, genesis, s.scanned, s'.scanned, s.rescan);
    if withTxs {
      SwitchMovesMarker(w, s.main, s.forest, chain, s.marker);
      MainIsBranch(w, main', |main'| - 1);
      SwitchScans(w, s.main, s.forest, chain, s.marker, s.scanned);
    }
  }

  lemma StartKeepsInv(w: World, genesis: Hash, s: State, s': State, height: nat)
    requires Inv(w, genesis, s) && StartStep(w, s, s', height)
    ensures Inv(w, genesis, s')
  {
    MainIsBranch(w, s.main, height);
    MainHeights(w, s.main);
    if height > 0 {
      assert w.IsParent(s.main[height - 1], s.main[height]);
      BelowPoint(w, genesis, s, height);
    } else {
      assert s.main[..1] == [s.main[0]];
    }
  }

  /** Everything below the rescan point has been scanned through. */
  lemma BelowPoint(w: World, genesis: Hash, s: State, height: nat)
    requires Inv(w, genesis, s) && 0 < height <= |s.main| && AtOrBelowPoint(w, s, height)
    ensures ScannedThrough(w, s.scanned, s.main[height - 1])
  {
    AncestorFacts(w, s.main, s.marker);
    var a := MainAncestor(w, s.main, s.marker);
    var i :| 0 <= i < |s.main| && s.main[i] == a;
    MainHeights(w, s.main);
    MainIsBranch(w, s.main, i);
    assert s.main[..i + 1][height - 1] == s.main[height - 1];
    ScannedBelow(w, s.scanned, s.marker, a);
    ScannedBelow(w, s.scanned, a, s.main[height - 1]);
  }

  /** The blocks of a main chain interval form a batch. */
  lemma BatchOk(w: World, genesis: Hash, main: seq<Hash>, scanned: set<Hash>, lo: nat, hi: nat)
    requires MainOk(w, main) && main[0] == genesis && 0 < lo < hi <= |main|
    requires ScannedThrough(w, scanned, main[lo - 1])
    ensures RescanOk(w, genesis, scanned, Batch(main[lo..hi], 0))
  {
    var b := main[lo..hi];
    MainHeights(w, main);
    assert w.IsParent(main[lo - 1], main[lo]);
    forall i | 0 < i < |b|
      ensures w.IsParent(b[i - 1], b[i])
    {
      assert b[i - 1] == main[lo + i - 1] && b[i] == main[lo + i];
    }
    forall x | x in b
      ensures Rooted(w, genesis, x) && x != genesis
    {
      var i :| 0 <= i < |b| && b[i] == x;
      MainIsBranch(w, main, lo + i);
      assert x == main[lo + i];
    }
  }

  lemma ReadKeepsInv(w: World, genesis: Hash, s: State, s': State, i: nat)
    requires Inv(w, genesis, s) && ReadAt(w, s, s', i)
    ensures Inv(w, genesis, s')
  {
    var first := if s.rescan.inclusive then i else i + 1;
    var b := NextBatch(w, s.main, first);
    MainIsBranch(w, s.main, 0);
    assert s.main[..1] == [s.main[0]];
    if b != [] {
      MainHeights(w, s.main);
      BatchAt(w, genesis, s.main, s.scanned, if first == 0 then 1 else first, b);
    }
  }

  lemma BatchAt(w: World, genesis: Hash, main: seq<Hash>, scanned: set<Hash>, first: nat, b: seq<Hash>)
    requires MainOk(w, main) && main[0] == genesis && 0 < first <= |main|
    requires b != [] && first + |b| <= |main| && b == main[first..first + |b|]
    requires ScannedThrough(w, scanned, main[first - 1]) || (first < |main| && ScannedThrough(w, scanned, w.Prev(main[first])))
    ensures RescanOk(w, genesis, scanned, Batch(b, 0))
  {
    assert w.IsParent(main[first - 1], main[first]);
    BatchOk(w, genesis, main, scanned, first, first + |b|);
  }

  lemma ScanKeepsInv(w: World, genesis: Hash, s: State, s': State, relevant: bool)
    requires Inv(w, genesis, s) && ScanStep(w, s, s', relevant)
    ensures Inv(w, genesis, s')
  {
    var blocks, pos := s.rescan.blocks, s.rescan.pos;
    var b := blocks[pos];
    assert b in blocks;
    RootedParent(w, genesis, b);
    assert pos > 0 ==> w.IsParent(blocks[pos - 1], blocks[pos]);
    ScanChild(w, s.scanned, w.Prev(b), b);
    var t := s.(scanned := s.scanned + {b}, rescan := Batch(blocks, pos + 1));
    assert Inv(w, genesis, t);
    if relevant && b in s.main {
      MovedMarkerOk(w, genesis, t, b);
    }
  }

  lemma FinishKeepsInv(w: World, genesis: Hash, s: State, s': State)
    requires Inv(w, genesis, s) && FinishStep(w, s, s')
    ensures Inv(w, genesis, s')
  {
    var last := s.rescan.blocks[|s.rescan.blocks| - 1];
    if last in s.main {
      MovedMarkerOk(w, genesis, s, last);
    }
  }

  lemma StepKeepsInv(w: World, maturity: nat, genesis: Hash, s: State, s': State)
    requires Inv(w, genesis, s) && w.PositiveWork() && Step(w, maturity, s, s')
    ensures Inv(w, genesis, s')
  {
    if AddStep(w, s, s') {
      AddKeepsInv(w, genesis, s, s');
    } else if exists chain, withTxs :: SwitchStep(w, maturity, s, s', chain, withTxs) {
      var chain, withTxs :| SwitchStep(w, maturity, s, s', chain, withTxs);
      SwitchKeepsMarker(w, maturity, genesis, s, s', chain, withTxs);
    } else if exists height :: StartStep(w, s, s', height) {
      var height :| StartStep(w, s, s', height);
      StartKeepsInv(w, genesis, s, s', height);
    } else if ReadStep(w, s, s') {
      if s.rescan.at in s.main {
        var i :| ReadAt(w, s, s', i);
        ReadKeepsInv(w, genesis, s, s', i);
      }
    } else if exists relevant :: ScanStep(w, s, s', relevant) {
      var relevant :| ScanStep(w, s, s', relevant);
      ScanKeepsInv(w, genesis, s, s', relevant);
    } else if FinishStep(w, s, s') {
      FinishKeepsInv(w, genesis, s, s');
    }
  }

  /** A wallet whose marker is its genesis block has scanned what it must. */
  ghost predicate Init(w: World, genesis: Hash, s: State) {
    && ChainInv(w, s.main, s.forest) && s.main[0] == genesis
    && s.marker == genesis && s.rescan == Idle
    && s.announced == s.forest + Members(s.main)
  }

  ghost predicate IsRun(w: World, maturity: nat, run: seq<State>) {
    forall i :: 0 < i < |run| ==> Step(w, maturity, run[i - 1], run[i])
  }

  lemma InitHolds(w: World, genesis: Hash, s: State)
    requires Init(w, genesis, s)
    ensures Inv(w, genesis, s)
  {
    MainIsBranch(w, s.main, 0);
    TotalAlong(w, s.main, 0, |s.main| - 1);
    assert s.main[..1] == [s.main[0]];
  }

  /** Marker safety: in every state of every run, all ancestors of the marker
      above the genesis block have been scanned. */
  lemma {:induction false} MarkerSafety(w: World, maturity: nat, genesis: Hash, run: seq<State>, i: nat)
    requires w.PositiveWork() && IsRun(w, maturity, run) && i < |run| && Init(w, genesis, run[0])
    ensures Inv(w, genesis, run[i])
    ensures forall x :: x in BranchTo(w, w.known, run[i].marker) && w.Height(x) > 0 ==> x in run[i].scanned
  {
    if i == 0 {
      InitHolds(w, genesis, run[0]);
    } else {
      MarkerSafety(w, maturity, genesis, run, i - 1);
      StepKeepsInv(w, maturity, genesis, run[i - 1], run[i]);
    }
  }

  /** In particular a wallet with nothing pending has scanned its whole main
      chain, and a guarded switch always finds the rescan point it reads. */
  lemma NoPendingMeansAllScanned(w: World, maturity: nat, genesis: Hash, run: seq<State>, i: nat)
    requires w.PositiveWork() && IsRun(w, maturity, run) && i < |run| && Init(w, genesis, run[0])
    requires RescanPoint(w, run[i].main, run[i].marker) == None
    ensures forall x :: x in run[i].main && w.Height(x) > 0 ==> x in run[i].scanned
    ensures |run[i].main| > 0
    ensures forall chain :: BestChoice(w, run[i].main, run[i].forest, chain) ==>
      SwitchMarker(w, SwitchedMain(w, run[i].main, chain), chain, run[i].marker).Some?
  {
    var s := run[i];
    MarkerSafety(w, maturity, genesis, run, i);
    NothingPending(w, s.main, s.marker, s.scanned);
    MainIsBranch(w, s.main, |s.main| - 1);
    assert s.main[..|s.main|] == s.main;
    forall chain | BestChoice(w, s.main, s.forest, chain)
      ensures SwitchMarker(w, SwitchedMain(w, s.main, chain), chain, s.marker).Some?
    {
      SwitchMovesMarker(w, s.main, s.forest, chain, s.marker);
    }
  }

  /** In no run does total work drop. */
  lemma {:induction false} WorkNeverDrops(w: World, maturity: nat, genesis: Hash, run: seq<State>, i: nat, j: nat)
    requires w.PositiveWork() && IsRun(w, maturity, run) && i <= j < |run| && Init(w, genesis, run[0])
    ensures |run[i].main| > 0 && |run[j].main| > 0
    ensures Total(w, Tip(run[i].main)) <= Total(w, Tip(run[j].main))
  {
    hide Inv, Step, Init, Total;
    MarkerSafety(w, maturity, genesis, run, i);
    MarkerSafety(w, maturity, genesis, run, j);
    if i < j {
      WorkNeverDrops(w, maturity, genesis, run, i, j - 1);
      MarkerSafety(w, maturity, genesis, run, j - 1);
      StepKeepsWork(w, maturity, genesis, run[j - 1], run[j]);
    }
    HasTip(w, genesis, run[i]);
    HasTip(w, genesis, run[j]);
  }

  lemma HasTip(w: World, genesis: Hash, s: State)
    requires Inv(w, genesis, s)
    ensures |s.main| > 0
  {
  }

  lemma StepKeepsWork(w: World, maturity: nat, genesis: Hash, s: State, s': State)
    requires Inv(w, genesis, s) && Step(w, maturity, s, s')
    ensures |s.main| > 0 && |s'.main| > 0
    ensures Total(w, Tip(s.main)) <= Total(w, Tip(s'.main))
  {
    if exists chain, withTxs :: SwitchStep(w, maturity, s, s', chain, withTxs) {
      var chain, withTxs :| SwitchStep(w, maturity, s, s', chain, withTxs);
      SwitchAddsWork(w, s.main, s.forest, chain);
    }
  }

  /** In no state of any run does adding a known block reach the internal
      consistency panic, and no forest block is ever in the main chain. */
  lemma PanicUnreachable(w: World, maturity: nat, genesis: Hash, run: seq<State>, i: nat, ts: seq<Tree>, n: Hash)
    requires w.PositiveWork() && IsRun(w, maturity, run) && i < |run| && Init(w, genesis, run[0])
    requires ForestWf(w, ts) && ForestBlocks(ts) == run[i].forest && n in w.known
    ensures !Misplaced(w, ts, n)
    ensures forall x :: x in run[i].main ==> x !in ForestBlocks(ts)
  {
    MarkerSafety(w, maturity, genesis, run, i);
    LinkedNeverMisplaced(w, ts, n);
  }
}

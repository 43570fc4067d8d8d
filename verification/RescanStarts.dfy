/** Where a rescan may start.  The code starts one at any main chain height: at startup
    at the height of a rescan point read some time before (spv/sync.go), and on request
    at the height asked for (rpc/legacyrpc/methods.go). */
module RescanStarts {
  import opened Headers
  import opened BlockSets
  import opened MainChains
  import opened Markers
  import opened MarkerRuns
  import opened Options

  /** The state after a rescan from a height through the tip, if nothing else happens. */
  ghost function Rescanned(w: World, s: State, height: nat): State
    requires 0 < height < |s.main|
  {
    s.(scanned := s.scanned + Members(s.main[height..]),
       marker := MovedMarker(w, s.main, s.marker, Tip(s.main)),
       rescan := Idle)
  }

  /** Nothing is pending after a rescan, and all is well exactly if everything below
      its start had been scanned. */
  lemma RescannedExactly(w: World, genesis: Hash, s: State, height: nat)
    requires Inv(w, genesis, s) && 0 < height < |s.main|
    ensures var t := Rescanned(w, s, height);
            && RescanPoint(w, t.main, t.marker) == None
            && (ScannedThrough(w, t.scanned, Tip(t.main)) <==> ScannedThrough(w, s.scanned, s.main[height - 1]))
            && (Inv(w, genesis, t) <==> ScannedThrough(w, s.scanned, s.main[height - 1]))
  {
    var t := Rescanned(w, s, height);
    var top := |s.main| - 1;
    MainHeights(w, s.main);
    MainIsBranch(w, s.main, top);
    MainIsBranch(w, s.main, height - 1);
    RescanPointFacts(w, s.main, s.marker);
    RescanPointFacts(w, s.main, Tip(s.main));
    ThroughTip(w, s, height);
    AncestorFacts(w, s.main, s.marker);
    if MovedMarker(w, s.main, s.marker, Tip(s.main)) == s.marker {
      NothingPending(w, s.main, s.marker, s.scanned);
      ScannedBelow(w, s.scanned, Tip(s.main), s.main[height - 1]);
    }
  }

  lemma ThroughTip(w: World, s: State, height: nat)
    requires MainOk(w, s.main) && 0 < height < |s.main|
    ensures ScannedThrough(w, s.scanned + Members(s.main[height..]), Tip(s.main)) <==>
            ScannedThrough(w, s.scanned, s.main[height - 1])
  {
    MainHeights(w, s.main);
    MainIsBranch(w, s.main, |s.main| - 1);
    MainIsBranch(w, s.main, height - 1);
    assert s.main[..|s.main|] == s.main;
    hide MainOk, BranchTo;
    forall x
      ensures x in s.main <==> x in s.main[..height] || x in s.main[height..]
    {
      PartsOf(s.main, height, x);
    }
    forall x | x in s.main[..height]
      ensures x !in s.main[height..]
    {
      PartsApart(w, s.main, height, x);
    }
  }

  lemma PartsOf(c: seq<Hash>, n: nat, x: Hash)
    requires n <= |c|
    ensures x in c <==> x in c[..n] || x in c[n..]
  {
    assert c == c[..n] + c[n..];
  }

  lemma PartsApart(w: World, c: seq<Hash>, n: nat, x: Hash)
    requires n <= |c| && x in c[..n] && forall i :: 0 <= i < |c| ==> w.Height(c[i]) == i
    ensures x !in c[n..]
  {
    var i :| 0 <= i < n && c[..n][i] == x;
    forall j | 0 <= j < |c[n..]|
      ensures c[n..][j] != x
    {
      assert w.Height(c[n + j]) == n + j;
    }
  }

  /** A start above the rescan point whose block is not scanned: the marker reaches the
      tip past it, and nothing is pending. */
  lemma StartAbovePoint(w: World, genesis: Hash, s: State, height: nat)
    requires Inv(w, genesis, s) && height < |s.main| && !AtOrBelowPoint(w, s, height)
    requires RescanPoint(w, s.main, s.marker) != None && RescanPoint(w, s.main, s.marker).value !in s.scanned
    ensures var r, t := RescanPoint(w, s.main, s.marker).value, Rescanned(w, s, height);
            && t.marker == Tip(t.main) && RescanPoint(w, t.main, t.marker) == None
            && r in t.main && w.Height(r) > 0 && r !in t.scanned && !Inv(w, genesis, t)
  {
    hide Rooted, BranchTo, Total, MainAncestor, RootOf, Attached;
    var r := RescanPoint(w, s.main, s.marker).value;
    RescannedExactly(w, genesis, s, height);
    PointBelow(w, genesis, s, height);
    PartsApart(w, s.main, height, r);
    MainIsBranch(w, s.main, height - 1);
  }

  lemma PointBelow(w: World, genesis: Hash, s: State, height: nat)
    requires Inv(w, genesis, s) && height < |s.main| && !AtOrBelowPoint(w, s, height)
    requires RescanPoint(w, s.main, s.marker) != None
    ensures var r := RescanPoint(w, s.main, s.marker).value;
            0 < height && r in s.main[..height] && w.Height(r) > 0
    ensures forall i :: 0 <= i < |s.main| ==> w.Height(s.main[i]) == i
  {
    hide BranchTo, Total, MainAncestor, RootOf, Attached;
    RescanPointFacts(w, s.main, s.marker);
    MainHeights(w, s.main);
    var r := RescanPoint(w, s.main, s.marker).value;
    assert s.main[..height][w.Height(r)] == r;
  }

  /** A height read before a switch to a branch that forks below it, with a block of
      that branch not scanned: starting there passes over that block. */
  lemma StaleStart(w: World, maturity: nat, genesis: Hash, s: State, s': State, chain: seq<Hash>, height: nat, j: nat)
    requires Inv(w, genesis, s) && w.PositiveWork() && SwitchStep(w, maturity, s, s', chain, false)
    requires RescanPoint(w, s.main, s.marker) != None && height == w.Height(RescanPoint(w, s.main, s.marker).value)
    requires height < |s'.main| && j < |chain| && ForkHeight(w, s.main, chain) + j < height && chain[j] !in s.scanned
    ensures height > 0
    ensures var t := Rescanned(w, s', height);
            && RescanPoint(w, t.main, t.marker) == None && chain[j] in t.main
            && !ScannedThrough(w, t.scanned, Tip(t.main)) && !Inv(w, genesis, t)
  {
    SwitchKeepsMarker(w, maturity, genesis, s, s', chain, false);
    ChoiceFacts(w, s.main, s.forest, chain);
    var i := ForkHeight(w, s.main, chain) + j;
    assert s'.main[i] == chain[j] && s'.scanned == s.scanned;
    hide Inv, SwitchStep, RescanPoint;
    PassedOver(w, genesis, s', height, i);
  }

  lemma PassedOver(w: World, genesis: Hash, s: State, height: nat, i: nat)
    requires Inv(w, genesis, s) && 0 < i < height < |s.main| && s.main[i] !in s.scanned
    ensures var t := Rescanned(w, s, height);
            && RescanPoint(w, t.main, t.marker) == None
            && !ScannedThrough(w, t.scanned, Tip(t.main)) && !Inv(w, genesis, t)
  {
    RescannedExactly(w, genesis, s, height);
    MainIsBranch(w, s.main, height - 1);
    MainHeights(w, s.main);
    assert s.main[..height][i] == s.main[i];
  }

  // ----- a switch with transactions while a rescan is pending -----

  /** The state after a switch with transactions, whether or not a rescan is pending. */
  ghost function Unguarded(w: World, maturity: nat, s: State, chain: seq<Hash>): State
    requires |chain| > 0
  {
    var main' := SwitchedMain(w, s.main, chain);
    var marker' := SwitchMarker(w, main', chain, s.marker);
    s.(main := main', forest := SwitchedForest(w, s.main, s.forest, chain, maturity),
       marker := if marker'.Some? then marker'.value else s.marker,
       scanned := s.scanned + Members(chain))
  }

  /** Without the callers' guard all is well exactly if the branch begins more than two
      blocks above the marker's nearest ancestor, so that the marker stays, or everything
      below the branch had been scanned. */
  lemma UnguardedExactly(w: World, maturity: nat, genesis: Hash, s: State, chain: seq<Hash>)
    requires Inv(w, genesis, s) && w.PositiveWork() && BestChoice(w, s.main, s.forest, chain)
    requires MainAncestor(w, SwitchedMain(w, s.main, chain), s.marker) != Tip(SwitchedMain(w, s.main, chain))
    ensures 0 < ForkHeight(w, s.main, chain)
    ensures var t := Unguarded(w, maturity, s, chain);
            Inv(w, genesis, t) <==>
            || w.Height(MainAncestor(w, t.main, s.marker)) + 2 < w.Height(chain[0])
            || ScannedThrough(w, s.scanned, s.main[ForkHeight(w, s.main, chain) - 1])
  {
    var f := ForkHeight(w, s.main, chain);
    var plain := Unguarded(w, maturity, s, chain).(marker := s.marker, scanned := s.scanned);
    assert SwitchStep(w, maturity, s, plain, chain, false);
    SwitchKeepsMarker(w, maturity, genesis, s, plain, chain, false);
    ChoiceFacts(w, s.main, s.forest, chain);
    hide BestChoice, SwitchedForest, ChainInv, SwitchStep;
    UnguardedCases(w, genesis, plain, Unguarded(w, maturity, s, chain), chain, f);
    SwitchedTip(s.main, chain, f);
  }

  lemma SwitchedTip(main: seq<Hash>, chain: seq<Hash>, f: nat)
    requires 0 < f <= |main| && |chain| > 0
    ensures (main[..f] + chain)[f - 1] == main[f - 1] && (main[..f] + chain)[f..] == chain
  {
  }

  lemma UnguardedCases(w: World, genesis: Hash, plain: State, t: State, chain: seq<Hash>, f: nat)
    requires Inv(w, genesis, plain) && 0 < f < |plain.main| && chain == plain.main[f..]
    requires MainAncestor(w, plain.main, plain.marker) != Tip(plain.main)
    requires SwitchMarker(w, plain.main, chain, plain.marker).Some? ==>
               t == plain.(marker := SwitchMarker(w, plain.main, chain, plain.marker).value,
                           scanned := plain.scanned + Members(chain))
    ensures Inv(w, genesis, t) <==>
            || w.Height(MainAncestor(w, plain.main, plain.marker)) + 2 < w.Height(chain[0])
            || ScannedThrough(w, plain.scanned, plain.main[f - 1])
  {
    var top := |plain.main| - 1;
    SwitchMarkerExactly(w, plain.main, chain, plain.marker);
    ScanMore(w, genesis, plain.scanned, plain.scanned + Members(chain), plain.rescan);
    MainIsBranch(w, plain.main, top);
    ThroughTip(w, plain, f);
    hide ChainInv, MainAncestor, SwitchMarker, RescanOk;
    assert t.marker == plain.marker ==> ScannedThrough(w, t.scanned, t.marker);
  }

  /** The comparison is off by one: with a rescan pending from the block below the branch
      on, the marker moves to the new tip, and that block is passed over. */
  lemma UnguardedSkipsOne(w: World, maturity: nat, genesis: Hash, s: State, chain: seq<Hash>)
    requires Inv(w, genesis, s) && w.PositiveWork() && BestChoice(w, s.main, s.forest, chain)
    requires ForkHeight(w, s.main, chain) > 1
    requires w.Height(MainAncestor(w, SwitchedMain(w, s.main, chain), s.marker)) + 2 == ForkHeight(w, s.main, chain)
    requires s.main[ForkHeight(w, s.main, chain) - 1] !in s.scanned
    ensures var t := Unguarded(w, maturity, s, chain);
            && t.marker == Tip(t.main) && s.main[ForkHeight(w, s.main, chain) - 1] in t.main
            && !Inv(w, genesis, t)
  {
    var f := ForkHeight(w, s.main, chain);
    var main' := SwitchedMain(w, s.main, chain);
    ChoiceFacts(w, s.main, s.forest, chain);
    var plain := Unguarded(w, maturity, s, chain).(marker := s.marker, scanned := s.scanned);
    assert SwitchStep(w, maturity, s, plain, chain, false);
    SwitchKeepsMarker(w, maturity, genesis, s, plain, chain, false);
    MainHeights(w, main');
    SwitchedTip(s.main, chain, f);
    SwitchMarkerExactly(w, main', chain, s.marker);
    UnguardedExactly(w, maturity, genesis, s, chain);
    MainIsBranch(w, s.main, f - 1);
    MainHeights(w, s.main);
    assert s.main[..f][f - 1] == s.main[f - 1];
    assert main'[f - 1] in main';
  }

  // ----- when a height read before is still good -----

  /** Of a main chain block among the marker's ancestors: the nearest one is no lower. */
  lemma {:induction false} AncestorAbove(w: World, main: seq<Hash>, h: Hash, p: Hash)
    requires w.Linked() && MainOk(w, main) && Rooted(w, main[0], h) && p in main && p in BranchTo(w, w.known, h)
    ensures w.Height(MainAncestor(w, main, h)) >= w.Height(p)
    decreases w.Height(h)
  {
    if h in main {
      var i :| 0 <= i < |main| && main[i] == h;
      MainIsBranch(w, main, i);
      MainHeights(w, main);
      var j :| 0 <= j < |main[..i + 1]| && main[..i + 1][j] == p;
    } else {
      RootedParent(w, main[0], h);
      AncestorAbove(w, main, w.Prev(h), p);
    }
  }

  lemma MovedKeeps(w: World, genesis: Hash, s: State, h: Hash, p: Hash)
    requires Inv(w, genesis, s) && h in s.main && p in s.main && p in BranchTo(w, w.known, s.marker)
    ensures p in BranchTo(w, w.known, MovedMarker(w, s.main, s.marker, h))
  {
    AncestorAbove(w, s.main, s.marker, p);
    MainHeights(w, s.main);
    var i :| 0 <= i < |s.main| && s.main[i] == h;
    MainIsBranch(w, s.main, i);
    if w.Height(h) > w.Height(p) {
      assert s.main[..i + 1][w.Height(p)] == p;
    }
  }

  /** As long as a block stays in the main chain, a marker above it stays above it. */
  lemma StepKeepsAncestor(w: World, maturity: nat, genesis: Hash, s: State, s': State, p: Hash)
    requires Inv(w, genesis, s) && w.PositiveWork() && Step(w, maturity, s, s')
    requires p in s.main && p in s'.main && p in BranchTo(w, w.known, s.marker)
    ensures p in BranchTo(w, w.known, s'.marker)
  {
    if s'.marker != s.marker {
      hide Inv, BranchTo;
      if exists chain, withTxs :: SwitchStep(w, maturity, s, s', chain, withTxs) {
        var chain, withTxs :| SwitchStep(w, maturity, s, s', chain, withTxs);
        SwitchKeepsMarker(w, maturity, genesis, s, s', chain, withTxs);
        TipAbove(w, genesis, s', p);
      } else if exists relevant :: ScanStep(w, s, s', relevant) {
        MovedKeeps(w, genesis, s, s.rescan.blocks[s.rescan.pos], p);
      } else {
        assert FinishStep(w, s, s');
        MovedKeeps(w, genesis, s, s.rescan.blocks[|s.rescan.blocks| - 1], p);
      }
    }
  }

  lemma TipAbove(w: World, genesis: Hash, s: State, p: Hash)
    requires Inv(w, genesis, s) && p in s.main && s.marker == Tip(s.main)
    ensures p in BranchTo(w, w.known, s.marker)
  {
    MainIsBranch(w, s.main, |s.main| - 1);
    assert s.main[..|s.main|] == s.main;
  }

  lemma {:induction false} RunKeepsAncestor(w: World, maturity: nat, genesis: Hash, run: seq<State>, i: nat, k: nat, p: Hash)
    requires w.PositiveWork() && IsRun(w, maturity, run) && i <= k < |run| && Init(w, genesis, run[0])
    requires p in BranchTo(w, w.known, run[i].marker) && forall t :: i <= t <= k ==> p in run[t].main
    ensures p in BranchTo(w, w.known, run[k].marker)
  {
    hide Step, Init, Inv, BranchTo;
    if i < k {
      RunKeepsAncestor(w, maturity, genesis, run, i, k - 1, p);
      MarkerSafety(w, maturity, genesis, run, k - 1);
      StepKeepsAncestor(w, maturity, genesis, run[k - 1], run[k], p);
    }
  }

  /** In every run, a rescan point read in one state is still a safe height to start at
      in a later one, if the block below it stayed in the main chain. */
  lemma PointStays(w: World, maturity: nat, genesis: Hash, run: seq<State>, i: nat, k: nat, r: Hash)
    requires w.PositiveWork() && IsRun(w, maturity, run) && i <= k < |run| && Init(w, genesis, run[0])
    requires RescanPoint(w, run[i].main, run[i].marker) == Some(r)
    requires forall t :: i <= t <= k ==> w.Prev(r) in run[t].main
    ensures AtOrBelowPoint(w, run[k], w.Height(r))
  {
    MarkerSafety(w, maturity, genesis, run, i);
    MarkerSafety(w, maturity, genesis, run, k);
    RescanPointFacts(w, run[i].main, run[i].marker);
    AncestorFacts(w, run[i].main, run[i].marker);
    RunKeepsAncestor(w, maturity, genesis, run, i, k, w.Prev(r));
    AncestorAbove(w, run[k].main, run[k].marker, w.Prev(r));
  }
}

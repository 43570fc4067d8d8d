/** The tip against every header ever announced.  A switch forgets the whole tree of the
    new chain and trees far behind it, so a forgotten branch can grow unseen until its
    headers are announced again. */
module Announced {
  import opened Headers
  import opened BlockSets
  import opened MainChains
  import opened Markers
  import opened MarkerRuns

  /** The header and all its ancestors were announced. */
  ghost predicate Connected(w: World, genesis: Hash, s: State, h: Hash) {
    Rooted(w, genesis, h) && forall x :: x in BranchTo(w, w.known, h) ==> x in s.announced
  }

  /** An announced header that was forgotten. */
  ghost predicate Dropped(s: State, h: Hash) {
    h in s.announced && h !in s.forest && h !in s.main
  }

  ghost predicate TipHeaviest(w: World, genesis: Hash, s: State)
    requires |s.main| > 0
  {
    forall h :: Connected(w, genesis, s, h) ==> Total(w, h) <= Total(w, Tip(s.main))
  }

  /** A header none of whose ancestors was forgotten is in the main chain or on a
      sidechain. */
  lemma {:induction false} NothingDropped(w: World, genesis: Hash, s: State, h: Hash)
    requires Inv(w, genesis, s) && Connected(w, genesis, s, h)
    requires forall d :: d in BranchTo(w, w.known, h) ==> !Dropped(s, d)
    ensures h in s.main || OnSidechain(w, s.main, s.forest, h)
    decreases w.Height(h)
  {
    assert h in BranchTo(w, w.known, h);
    if h !in s.main {
      RootedParent(w, genesis, h);
      var p := w.Prev(h);
      assert BranchTo(w, w.known, h) == BranchTo(w, w.known, p) + [h];
      NothingDropped(w, genesis, s, p);
    }
  }

  /** After a round, the tip is heaviest among all announced headers exactly if no
      heavier one descends from a forgotten one. */
  lemma HeaviestExactly(w: World, genesis: Hash, s: State)
    requires Inv(w, genesis, s) && |s.main| > 0 && NoBetter(w, s.main, s.forest)
    ensures TipHeaviest(w, genesis, s) <==>
            forall h, d :: Connected(w, genesis, s, h) && d in BranchTo(w, w.known, h) && Dropped(s, d) ==>
              Total(w, h) <= Total(w, Tip(s.main))
  {
    forall h | Connected(w, genesis, s, h) && Total(w, h) > Total(w, Tip(s.main))
      ensures exists d :: d in BranchTo(w, w.known, h) && Dropped(s, d)
    {
      if forall d :: d in BranchTo(w, w.known, h) ==> !Dropped(s, d) {
        NothingDropped(w, genesis, s, h);
        var i :| 0 <= i < |s.main| && s.main[i] == h;
        TotalAlong(w, s.main, i, |s.main| - 1);
      }
    }
  }

  /** In every run, a switch leaves a tip that is heaviest among all headers ever
      announced that descend from no forgotten one. */
  lemma SwitchReachesAnnounced(w: World, maturity: nat, genesis: Hash, run: seq<State>, i: nat, chain: seq<Hash>, withTxs: bool)
    requires w.PositiveWork() && IsRun(w, maturity, run) && i + 1 < |run| && Init(w, genesis, run[0])
    requires SwitchStep(w, maturity, run[i], run[i + 1], chain, withTxs)
    ensures |run[i + 1].main| > 0 && NoBetter(w, run[i + 1].main, run[i + 1].forest)
    ensures TipHeaviest(w, genesis, run[i + 1]) <==>
            forall h, d :: Connected(w, genesis, run[i + 1], h) && d in BranchTo(w, w.known, h) && Dropped(run[i + 1], d) ==>
              Total(w, h) <= Total(w, Tip(run[i + 1].main))
  {
    MarkerSafety(w, maturity, genesis, run, i);
    MarkerSafety(w, maturity, genesis, run, i + 1);
    RoundReachesHeaviest(w, run[i].main, run[i].forest, chain, maturity);
    HeaviestExactly(w, genesis, run[i + 1]);
  }

  // ----- a forgotten branch -----

  /** Two branches above the genesis block 1 and block 2: block 3, and blocks 4 and 5. */
  function Fork(): World {
    World((h: Hash) =>
            if h == 2 then Header(1, 1, 0, 0, 0, 0, 0)
            else if h == 3 then Header(2, 2, 0, 0, 0, 0, 0)
            else if h == 4 then Header(2, 2, 0, 0, 0, 0, 0)
            else if h == 5 then Header(4, 3, 0, 0, 0, 0, 0)
            else Header(0, 0, 0, 0, 0, 0, 0),
          (bits: nat) => 1, {1, 2, 3, 4, 5})
  }

  /** Blocks 2 to 4 are announced, 3 is attached with 2, and then 5 is announced. */
  function ForkRun(): seq<State> {
    [State([1], {}, 1, {}, Idle, {1}),
     State([1], {2, 3, 4}, 1, {}, Idle, {1, 2, 3, 4}),
     State([1, 2, 3], {}, 1, {}, Idle, {1, 2, 3, 4}),
     State([1, 2, 3], {5}, 1, {}, Idle, {1, 2, 3, 4, 5})]
  }

  /** Block 4 is forgotten with the tree of the new chain.  So at the end nothing is
      better in the forest, although block 5 and all its ancestors were announced and
      carry more work. */
  lemma ForgottenBranch(maturity: nat)
    ensures var w, run, s := Fork(), ForkRun(), ForkRun()[3];
            && w.PositiveWork() && Init(w, 1, run[0]) && IsRun(w, maturity, run)
            && NoBetter(w, s.main, s.forest)
            && Connected(w, 1, s, 5) && Dropped(s, 4) && Total(w, 5) > Total(w, Tip(s.main))
  {
    hide Fork, Total, BranchTo, RootOf, SwitchStep, NoBetter, AddStep;
    var w, run := Fork(), ForkRun();
    ForkFacts();
    ForkOk();
    ForkBranches();
    ForkTotals();
    ForkEnds();
    ForkSwitch(maturity);
    Arrive(w, run[0], run[1], {2, 3, 4});
    Arrive(w, run[2], run[3], {5});
    assert SwitchStep(w, maturity, run[1], run[2], [2, 3], false);
  }

  lemma Arrive(w: World, s: State, s': State, added: set<Hash>)
    requires added <= w.known
    requires s' == s.(forest := s.forest + (added - Members(s.main)), announced := s.announced + added)
    ensures AddStep(w, s, s')
  {
    assert s.announced + added == s'.announced;
  }

  lemma ForkFacts()
    ensures var w := Fork();
            && w.known == {1, 2, 3, 4, 5} && (forall h :: w.Work(h) == 1)
            && w.Prev(1) == 0 && w.Prev(2) == 1 && w.Prev(3) == 2 && w.Prev(4) == 2 && w.Prev(5) == 4
            && w.Height(1) == 0 && w.Height(2) == 1 && w.Height(3) == 2 && w.Height(4) == 2 && w.Height(5) == 3
  {
  }

  lemma ForkAttached()
    ensures var w := Fork();
            && !Attached(w, w.known, 1) && Attached(w, w.known, 2) && Attached(w, w.known, 3) && Attached(w, w.known, 4)
            && Attached(w, w.known, 5)
  {
    hide Fork;
    ForkFacts();
  }

  lemma ForkBranches()
    ensures var w := Fork();
            && BranchTo(w, w.known, 1) == [1] && BranchTo(w, w.known, 2) == [1, 2]
            && BranchTo(w, w.known, 4) == [1, 2, 4] && BranchTo(w, w.known, 5) == [1, 2, 4, 5]
  {
    hide Fork, Attached;
    ForkFacts();
    ForkAttached();
  }

  lemma ForkOk()
    ensures Fork().PositiveWork() && Fork().Linked() && MainOk(Fork(), [1])
  {
    hide Fork;
    ForkFacts();
  }

  lemma ForkTotals()
    ensures var w := Fork();
            && RootOf(w, w.known, 5) == 1
            && Total(w, 1) == 1 && Total(w, 2) == 2 && Total(w, 3) == 3 && Total(w, 4) == 3 && Total(w, 5) == 4
  {
    hide Fork, Attached;
    ForkFacts();
    ForkAttached();
    var w := Fork();
    assert RootOf(w, w.known, 1) == 1 && RootOf(w, w.known, 2) == 1 && RootOf(w, w.known, 4) == 1;
    assert WorkTo(w, w.known, 1) == 1 && WorkTo(w, w.known, 2) == 2;
  }

  lemma ForkEnds()
    ensures NoBetter(Fork(), [1, 2, 3], {5})
  {
    hide Fork, Total;
    ForkFacts();
    assert !Attached(Fork(), {5}, 5) && RootOf(Fork(), {5}, 5) == 5;
  }

  lemma ForkSwitch(maturity: nat)
    ensures SwitchStep(Fork(), maturity, ForkRun()[1], ForkRun()[2], [2, 3], false)
  {
    hide Fork, Total, SwitchedMain, SwitchedForest, BranchTo, RootOf;
    var w, s := Fork(), {2, 3, 4};
    ForkTotals();
    ForkTree();
    assert OnSidechain(w, [1], s, 3) && Tip([2, 3]) == 3;
    assert forall h :: h in s ==> h == 2 || h == 3 || h == 4;
    assert BestChoice(w, [1], s, [2, 3]);
    ForkSwitched(maturity);
    assert ForkRun()[2] == ForkRun()[1].(main := [1, 2, 3], forest := {});
  }

  lemma ForkTree()
    ensures var w, s := Fork(), {2, 3, 4};
            && RootOf(w, s, 2) == RootOf(w, s, 3) == RootOf(w, s, 4) == 2 && w.Prev(2) == 1
            && BranchTo(w, s, 3) == [2, 3]
  {
    hide Fork;
    ForkFacts();
    var w, s := Fork(), {2, 3, 4};
    assert !Attached(w, s, 2) && Attached(w, s, 3) && Attached(w, s, 4);
    hide Attached;
    assert BranchTo(w, s, 2) == [2];
  }

  lemma ForkSwitched(maturity: nat)
    ensures SwitchedMain(Fork(), [1], [2, 3]) == [1, 2, 3]
    ensures SwitchedForest(Fork(), [1], {2, 3, 4}, [2, 3], maturity) == {}
  {
    hide Fork, RootOf, BranchTo;
    ForkFacts();
    ForkTree();
    var w, s := Fork(), {2, 3, 4};
    assert TreeOf(w, s, 2) == s;
    assert Detached(w, [1], [2, 3]) == [];
  }
}

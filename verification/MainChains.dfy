/** The main chain beside a forest: which branch is best, what a switch to it
    does, and what every run of the syncer keeps. */
module MainChains {
  import opened Headers
  import opened BlockSets
  import opened Sidechains

  /** The work of a block and all its known ancestors. */
  function Total(w: World, h: Hash): nat {
    WorkTo(w, w.known, h)
  }

  /** The main chain starts at height zero and is parent-linked. */
  ghost predicate MainOk(w: World, main: seq<Hash>) {
    && |main| > 0 && w.Height(main[0]) == 0 && w.IsChain(main)
    && (forall x :: x in main ==> x in w.known)
  }

  ghost predicate ChainInv(w: World, main: seq<Hash>, s: set<Hash>) {
    && w.Linked() && MainOk(w, main)
    && s <= w.known
    && (forall x :: x in main ==> x !in s)
  }

  function Tip(main: seq<Hash>): Hash
    requires |main| > 0
  {
    main[|main| - 1]
  }

  /** `h` is on a sidechain, not an orphan. */
  predicate OnSidechain(w: World, main: seq<Hash>, s: set<Hash>, h: Hash) {
    h in s && w.Prev(RootOf(w, s, h)) in main
  }

  /** No known sidechain block carries more work than the main chain tip. */
  ghost predicate NoBetter(w: World, main: seq<Hash>, s: set<Hash>)
    requires |main| > 0
  {
    forall h :: OnSidechain(w, main, s, h) ==> Total(w, h) <= Total(w, Tip(main))
  }

  /** `chain` is a sidechain branch with more work than the main chain and at
      least as much as every other known sidechain block. */
  ghost predicate BestChoice(w: World, main: seq<Hash>, s: set<Hash>, chain: seq<Hash>)
    requires |main| > 0
  {
    && |chain| > 0
    && OnSidechain(w, main, s, Tip(chain))
    && chain == BranchTo(w, s, Tip(chain))
    && Total(w, Tip(chain)) > Total(w, Tip(main))
    && (forall h :: OnSidechain(w, main, s, h) ==> Total(w, h) <= Total(w, Tip(chain)))
  }

  /** The height at which `chain` leaves the main chain. */
  function ForkHeight(w: World, main: seq<Hash>, chain: seq<Hash>): (f: nat)
    requires |chain| > 0
    ensures f <= |main|
  {
    if w.Height(chain[0]) <= |main| then w.Height(chain[0]) else |main|
  }

  function SwitchedMain(w: World, main: seq<Hash>, chain: seq<Hash>): seq<Hash>
    requires |chain| > 0
  {
    main[..ForkHeight(w, main, chain)] + chain
  }

  function Detached(w: World, main: seq<Hash>, chain: seq<Hash>): seq<Hash>
    requires |chain| > 0
  {
    main[ForkHeight(w, main, chain)..]
  }

  ghost function Members(c: seq<Hash>): set<Hash> {
    set x | x in c
  }

  /** The forest after a switch: the tree of the new chain goes, old trees go,
      and the detached blocks come back. */
  ghost function SwitchedForest(w: World, main: seq<Hash>, s: set<Hash>, chain: seq<Hash>, maturity: nat): set<Hash>
    requires |chain| > 0
  {
    Recent(w, s - TreeOf(w, s, chain[0]), w.Height(Tip(chain)), maturity) + Members(Detached(w, main, chain))
  }

  // ----- work along chains -----

  lemma MainHeights(w: World, main: seq<Hash>)
    requires MainOk(w, main)
    ensures forall i :: 0 <= i < |main| ==> w.Height(main[i]) == i
  {
    forall i | 0 <= i < |main|
      ensures w.Height(main[i]) == i
    {
      ChainHeights(w, main, i);
    }
  }

  lemma {:induction false} TotalAlong(w: World, c: seq<Hash>, i: nat, j: nat)
    requires w.IsChain(c) && (forall x :: x in c ==> x in w.known)
    requires i <= j < |c|
    ensures Total(w, c[j]) == Total(w, c[i]) + w.SumWork(c[i + 1..j + 1])
  {
    if i == j {
      assert c[i + 1..j + 1] == [];
    } else {
      TotalAlong(w, c, i, j - 1);
      assert w.IsParent(c[j - 1], c[j]) && c[j - 1] in c;
      var d := c[i + 1..j + 1];
      assert d[..|d| - 1] == c[i + 1..j];
    }
  }

  /** A sidechain block's total is its fork point's plus its branch's work. */
  lemma TotalOfBranch(w: World, s: set<Hash>, h: Hash)
    requires w.Linked() && s <= w.known && h in s
    requires w.Prev(RootOf(w, s, h)) in w.known
    ensures Total(w, h) == Total(w, w.Prev(RootOf(w, s, h))) + WorkTo(w, s, h)
    ensures w.IsParent(w.Prev(RootOf(w, s, h)), RootOf(w, s, h))
  {
    RootIsUnattached(w, s, h);
    BranchIsChain(w, s, h);
    BranchJoined(w, s, w.known, h);
  }

  /** The facts about a best choice that the later proofs share. */
  lemma ChoiceFacts(w: World, main: seq<Hash>, s: set<Hash>, chain: seq<Hash>)
    requires ChainInv(w, main, s) && BestChoice(w, main, s, chain)
    ensures w.IsChain(chain)
    ensures forall x :: x in chain ==> x in s && RootOf(w, s, x) == chain[0]
    ensures var f := ForkHeight(w, main, chain);
            0 < f == w.Height(chain[0]) && main[f - 1] == w.Prev(chain[0])
    ensures w.IsParent(w.Prev(chain[0]), chain[0])
  {
    var tip := Tip(chain);
    BranchIsChain(w, s, tip);
    TotalOfBranch(w, s, tip);
    MainHeights(w, main);
    var p := w.Prev(chain[0]);
    var i :| 0 <= i < |main| && main[i] == p;
  }

  lemma SwitchKeepsMain(w: World, main: seq<Hash>, s: set<Hash>, chain: seq<Hash>)
    requires ChainInv(w, main, s) && BestChoice(w, main, s, chain)
    ensures MainOk(w, SwitchedMain(w, main, chain)) && Tip(SwitchedMain(w, main, chain)) == Tip(chain)
  {
    ChoiceFacts(w, main, s, chain);
    var f := ForkHeight(w, main, chain);
    var main' := SwitchedMain(w, main, chain);
    forall i | 0 < i < |main'|
      ensures w.IsParent(main'[i - 1], main'[i])
    {
      if i > f {
        assert main'[i] == chain[i - f] && main'[i - 1] == chain[i - f - 1];
      }
    }
    assert main'[0] == main[0];
  }

  /** The switch passes ChainSwitch's own work check, and total work strictly
      increases. */
  lemma SwitchAddsWork(w: World, main: seq<Hash>, s: set<Hash>, chain: seq<Hash>)
    requires ChainInv(w, main, s) && BestChoice(w, main, s, chain)
    ensures w.SumWork(chain) > w.SumWork(Detached(w, main, chain))
    ensures Total(w, Tip(SwitchedMain(w, main, chain))) > Total(w, Tip(main))
  {
    ChoiceFacts(w, main, s, chain);
    SwitchKeepsMain(w, main, s, chain);
    var f := ForkHeight(w, main, chain);
    TotalAlong(w, main, f - 1, |main| - 1);
    assert Detached(w, main, chain) == main[f - 1 + 1..|main| - 1 + 1];
    TotalOfBranch(w, s, Tip(chain));
    BranchIsChain(w, s, Tip(chain));
  }

  lemma SwitchKeepsInv(w: World, main: seq<Hash>, s: set<Hash>, chain: seq<Hash>, maturity: nat)
    requires ChainInv(w, main, s) && BestChoice(w, main, s, chain)
    ensures ChainInv(w, SwitchedMain(w, main, chain), SwitchedForest(w, main, s, chain, maturity))
  {
    ChoiceFacts(w, main, s, chain);
    SwitchKeepsMain(w, main, s, chain);
    MainHeights(w, main);
    MainHeights(w, SwitchedMain(w, main, chain));
    var f := ForkHeight(w, main, chain);
    var s' := SwitchedForest(w, main, s, chain, maturity);
    var main' := SwitchedMain(w, main, chain);
    forall j | 0 <= j < |main'|
      ensures main'[j] !in s'
    {
      if j < f {
        assert main'[j] == main[j];
        assert main[j] in main;
        assert forall i :: f <= i < |main| ==> w.Height(main[i]) != w.Height(main[j]);
      } else {
        assert main'[j] == chain[j - f];
        assert chain[j - f] in chain;
        assert chain[j - f] in TreeOf(w, s, chain[0]);
        assert chain[j - f] !in main;
      }
    }
  }

  /** What a switch keeps of the forest, block by block: the trees other than the new
      chain's whose root is not more than the pruning depth below the new tip, and the
      detached blocks. */
  lemma ForgetsExactly(w: World, main: seq<Hash>, s: set<Hash>, chain: seq<Hash>, maturity: nat, h: Hash)
    requires ChainInv(w, main, s) && BestChoice(w, main, s, chain)
    ensures h in SwitchedForest(w, main, s, chain, maturity) <==>
            || (exists i :: ForkHeight(w, main, chain) <= i < |main| && main[i] == h)
            || (h in s && RootOf(w, s, h) != chain[0]
                && w.Height(RootOf(w, s, h)) + maturity >= |SwitchedMain(w, main, chain)| - 1)
  {
    hide BranchTo, BestChoice, MainOk;
    TipHeight(w, main, s, chain);
    if h in s - TreeOf(w, s, chain[0]) {
      KeptRoot(w, s, chain[0], h);
    }
    DetachedAre(w, main, chain, h);
  }

  lemma TipHeight(w: World, main: seq<Hash>, s: set<Hash>, chain: seq<Hash>)
    requires ChainInv(w, main, s) && BestChoice(w, main, s, chain)
    ensures chain != [] && w.Height(Tip(chain)) == |SwitchedMain(w, main, chain)| - 1
  {
    SwitchKeepsMain(w, main, s, chain);
    MainHeights(w, SwitchedMain(w, main, chain));
  }

  lemma DetachedAre(w: World, main: seq<Hash>, chain: seq<Hash>, h: Hash)
    requires chain != []
    ensures h in Detached(w, main, chain) <==> exists i :: ForkHeight(w, main, chain) <= i < |main| && main[i] == h
  {
    var f := ForkHeight(w, main, chain);
    if h in Detached(w, main, chain) {
      var k :| 0 <= k < |main[f..]| && main[f..][k] == h;
      assert main[f + k] == h;
    }
    if i :| f <= i < |main| && main[i] == h {
      assert main[f..][i - f] == h;
    }
  }

  lemma KeptRoot(w: World, s: set<Hash>, r: Hash, h: Hash)
    requires h in s - TreeOf(w, s, r)
    ensures RootOf(w, s - TreeOf(w, s, r), h) == RootOf(w, s, h)
  {
    BranchIsChain(w, s, h);
    RootIsUnattached(w, s, h);
    BranchUnchanged(w, s, s - TreeOf(w, s, r), h);
  }

  /** What is left of the old forest keeps its roots. */
  lemma LeftoverRoots(w: World, s: set<Hash>, r: Hash, height: nat, maturity: nat, h: Hash)
    requires h in Recent(w, s - TreeOf(w, s, r), height, maturity)
    ensures h in s && RootOf(w, s, h) != r
    ensures forall x :: x in BranchTo(w, s, h) ==> x in Recent(w, s - TreeOf(w, s, r), height, maturity)
  {
    var t := s - TreeOf(w, s, r);
    BranchIsChain(w, s, h);
    TreesDroppedKeepRoots(w, s, t, r, h);
    forall x | x in BranchTo(w, s, h)
      ensures x in Recent(w, t, height, maturity)
    {
      TreesDroppedKeepRoots(w, s, t, r, x);
    }
  }

  /** In linked headers, the block a root names is not in the forest. */
  lemma LinkedRoot(w: World, s: set<Hash>, r: Hash)
    requires w.Linked() && s <= w.known && r in s && !Attached(w, s, r)
    ensures w.Prev(r) !in s
  {
    assert w.Prev(r) in s ==> w.Prev(r) in w.known;
  }

  /** A sidechain block that survives a switch was a sidechain block before. */
  lemma WasOnSidechain(w: World, main: seq<Hash>, s: set<Hash>, chain: seq<Hash>, maturity: nat, h: Hash)
    requires ChainInv(w, main, s) && BestChoice(w, main, s, chain)
    requires OnSidechain(w, SwitchedMain(w, main, chain), SwitchedForest(w, main, s, chain, maturity), h)
    requires h !in Detached(w, main, chain)
    ensures OnSidechain(w, main, s, h)
  {
    var s' := SwitchedForest(w, main, s, chain, maturity);
    var main' := SwitchedMain(w, main, chain);
    ChoiceFacts(w, main, s, chain);
    LeftoverRoots(w, s, chain[0], w.Height(Tip(chain)), maturity, h);
    RootIsUnattached(w, s, h);
    var r := RootOf(w, s, h);
    var p := w.Prev(r);
    if Attached(w, s', r) {
      assert p !in s;
      assert p in main;
    } else {
      BranchUnchanged(w, s, s', h);
      assert p in main';
      LinkedRoot(w, s, r);
      assert p !in chain;
      assert p in main;
    }
  }

  /** One round reaches the heaviest known chain: after switching to the best
      choice, pruning, and re-adding every detached block, no known sidechain
      block has more work than the new tip, although trees that forked off
      detached blocks have been merged into them. */
  lemma RoundReachesHeaviest(w: World, main: seq<Hash>, s: set<Hash>, chain: seq<Hash>, maturity: nat)
    requires ChainInv(w, main, s) && BestChoice(w, main, s, chain)
    ensures NoBetter(w, SwitchedMain(w, main, chain), SwitchedForest(w, main, s, chain, maturity))
  {
    var s' := SwitchedForest(w, main, s, chain, maturity);
    var main' := SwitchedMain(w, main, chain);
    SwitchKeepsMain(w, main, s, chain);
    SwitchAddsWork(w, main, s, chain);
    forall h | OnSidechain(w, main', s', h)
      ensures Total(w, h) <= Total(w, Tip(main'))
    {
      if h in Detached(w, main, chain) {
        var i :| 0 <= i < |main| && main[i] == h;
        TotalAlong(w, main, i, |main| - 1);
      } else {
        WasOnSidechain(w, main, s, chain, maturity, h);
      }
    }
  }
}

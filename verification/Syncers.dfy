/** The SPV syncer's critical sections (spv/sync.go): adding announced blocks,
    switching to the best chain, and putting detached blocks back. */
module Syncers {
  import opened Headers
  import opened RootedTrees
  import opened Forests
  import opened Sidechains
  import opened MainChains
  import opened Markers
  import opened Options
  import opened Wallets
  import opened Validity

  /** What a client that follows the tip notifications believes. */
  function ReplayOne(c: seq<Hash>, ch: TipChange): seq<Hash> {
    if |ch.detached| <= |c| then c[..|c| - |ch.detached|] + ch.attached else ch.attached
  }

  function Replay(c: seq<Hash>, changes: seq<TipChange>): seq<Hash> {
    if changes == [] then c else ReplayOne(Replay(c, changes[..|changes| - 1]), changes[|changes| - 1])
  }

  lemma ReplaySwitch(w: World, start: seq<Hash>, changes: seq<TipChange>, main: seq<Hash>, c: seq<Hash>)
    requires Replay(start, changes) == main && |c| > 0
    ensures Replay(start, changes + [ChangeOf(w, main, c)]) == SwitchedMain(w, main, c)
    ensures main[|main| - |ChangeOf(w, main, c).detached|..] == ChangeOf(w, main, c).detached
    ensures MainOk(w, SwitchedMain(w, main, c)) ==> ChangeOf(w, main, c).newHeight == |SwitchedMain(w, main, c)| - 1
  {
    if MainOk(w, SwitchedMain(w, main, c)) {
      MainHeights(w, SwitchedMain(w, main, c));
      assert Tip(SwitchedMain(w, main, c)) == Tip(c);
    }
    var all := changes + [ChangeOf(w, main, c)];
    assert all[..|all| - 1] == changes;
  }

  /** `NothingNew`: all headers were known, and nothing was evaluated. */
  datatype Outcome = NothingNew | UpToDate | Reorganized | Refused

  /** A round of evaluating, validating and switching, given the blocks known: `best` is
      a best choice among them, or nothing if there is none.  It is switched to exactly
      if all its blocks are valid, and otherwise everything stays. */
  ghost predicate Round(r: Rules, w: World, maturity: nat, main: seq<Hash>, known: set<Hash>, out: Outcome, best: seq<Hash>,
                        main': seq<Hash>, known': set<Hash>)
    requires |main| > 0
  {
    && RulesOk(r)
    && if best == [] then
         NoBetter(w, main, known) && out == UpToDate && main' == main && known' == known
       else
         && BestChoice(w, main, known, best)
         && if BranchValid(r, w, main, best) then
              && out == Reorganized && main' == SwitchedMain(w, main, best)
              && known' == SwitchedForest(w, main, known, best, maturity)
            else
              out == Refused && main' == main && known' == known
  }

  /** If all best choices are valid, the round ends with a tip at least as heavy as the
      old one and as every sidechain block that was known. */
  lemma RoundHeaviest(r: Rules, w: World, maturity: nat, main: seq<Hash>, known: set<Hash>, out: Outcome, best: seq<Hash>,
                      main': seq<Hash>, known': set<Hash>)
    requires ChainInv(w, main, known) && Round(r, w, maturity, main, known, out, best, main', known')
    requires forall c :: BestChoice(w, main, known, c) ==> BranchValid(r, w, main, c)
    ensures !out.Refused? && |main'| > 0 && Total(w, Tip(main')) >= Total(w, Tip(main))
    ensures forall h :: OnSidechain(w, main, known, h) ==> Total(w, h) <= Total(w, Tip(main'))
  {
    assert |main| > 0;
    hide ChainInv, Total, OnSidechain;
    if best != [] {
      assert BranchValid(r, w, main, best) && main' == main[..ForkHeight(w, main, best)] + best;
      assert Tip(main') == Tip(best);
    }
  }

  class Syncer {
    const wallet: Wallet
    const sidechains: SidechainForest
    const rules: Rules
    /** The main chain a notification client started from. */
    const clientStart: seq<Hash>

    ghost function Main(): seq<Hash>
      reads wallet
    {
      wallet.mainChain
    }

    ghost function Known(): set<Hash>
      reads sidechains, sidechains.trees
    {
      sidechains.Blocks()
    }

    /** What every critical section keeps. */
    ghost predicate Inv()
      reads wallet, sidechains, sidechains.trees
    {
      && wallet.Valid() && sidechains.Valid() && sidechains.w == wallet.w
      && wallet.w.PositiveWork()
      && ChainInv(wallet.w, Main(), Known())
      && Total(wallet.w, wallet.marker) <= Total(wallet.w, Tip(Main()))
      && Replay(clientStart, wallet.tipChanges) == Main()
      && ChainValid(rules, wallet.w, Main())
    }

    constructor (wallet: Wallet, sidechains: SidechainForest, rules: Rules, start: seq<Hash>)
      requires wallet.Valid() && sidechains.Valid() && sidechains.w == wallet.w && wallet.w.PositiveWork()
      requires sidechains.Blocks() == {} && wallet.tipChanges == [] && start == wallet.mainChain
      requires Total(wallet.w, wallet.marker) <= Total(wallet.w, Tip(wallet.mainChain))
      requires ChainValid(rules, wallet.w, wallet.mainChain)
      ensures Inv() && this.wallet == wallet && this.sidechains == sidechains && this.rules == rules
    {
      this.rules := rules;
      this.wallet := wallet;
      this.sidechains := sidechains;
      this.clientStart := start;
    }

    /** Adds every announced block that is not in the main chain.  The internal
        consistency panic is never reached. */
    method AddNodes(hashes: seq<Hash>) returns (added: nat)
      requires Inv() && forall h :: h in hashes ==> h in wallet.w.known
      modifies sidechains, sidechains.TreeSet()
      ensures Inv() && fresh(sidechains.TreeSet() - old(sidechains.TreeSet()))
      ensures Known() == old(Known()) + (Members(hashes) - Members(Main()))
      ensures Main() == old(Main())
      ensures added == 0 <==> Known() == old(Known())
    {
      hide Inv, Known, Main, Members;
      added := 0;
      var i := 0;
      ghost var main, known := Main(), Known();
      NoneAnnounced(known, main, hashes);
      hide SidechainForest.TreeSet;
      while i < |hashes|
        invariant 0 <= i <= |hashes| && Main() == main
        invariant Inv() && fresh(sidechains.TreeSet() - old(sidechains.TreeSet()))
        invariant Known() == known + (Members(hashes[..i]) - Members(main))
        invariant known <= Known() && (added == 0 <==> Known() == known)
      {
        MembersStep(hashes, i);
        UnionOfNew(known, Members(hashes[..i]), main, hashes[i]);
        var isNew := AddAnnounced(hashes[i]);
        if isNew {
          added := added + 1;
        }
        i := i + 1;
      }
      assert hashes[..i] == hashes;
    }

    method AddAnnounced(h: Hash) returns (isNew: bool)
      requires Inv() && h in wallet.w.known
      modifies sidechains, sidechains.TreeSet()
      ensures Inv() && fresh(sidechains.TreeSet() - old(sidechains.TreeSet()))
      ensures Known() == old(Known()) + ({h} - Members(Main()))
      ensures !isNew <==> Known() == old(Known())
    {
      OneAnnounced(Known(), Main(), h);
      hide Inv, Known, Main, Members;
      var inMain := InMainChain(h);
      isNew := false;
      if !inMain {
        isNew := AddNode(NewBlockNode(wallet.w, h));
      }
    }

    method InMainChain(h: Hash) returns (inMain: bool)
      requires Inv()
      ensures inMain <==> h in Main()
    {
      inMain := wallet.BlockInMainChain(h);
    }

    method AddNode(n: Node) returns (isNew: bool)
      requires Inv() && n.header == wallet.w.headerOf(n.hash) && n.parent == NoParent
      requires n.hash in wallet.w.known && n.hash !in Members(Main())
      modifies sidechains, sidechains.TreeSet()
      ensures Inv() && fresh(sidechains.TreeSet() - old(sidechains.TreeSet()))
      ensures Known() == old(Known()) + {n.hash}
      ensures isNew <==> n.hash !in old(Known())
    {
      LinkedNeverMisplaced(wallet.w, sidechains.Values(), n.hash);
      var r := sidechains.AddBlockNode(n);
      isNew := r == Added;
    }

    /** Evaluates the best chain, validates its difficulties, and switches to it.
        `mayScan` says that the caller scans the branch for transactions when no
        rescan is pending; otherwise the switch is made without transactions.

        The result is exact: the best branch, if there is one, is refused exactly if
        one of its blocks is not what its history requires, and then nothing changes.
        Otherwise no sidechain block has more work than the main chain tip.  Every
        switch passes the work check, strictly increases the total work, and leaves
        no rescan pending if the branch was scanned. */
    method SwitchToBest(mayScan: bool) returns (out: Outcome, ghost best: seq<Hash>)
      requires Inv()
      modifies wallet, sidechains, sidechains.TreeSet()
      ensures Inv() && |Main()| > 0 && old(|Main()| > 0)
      ensures Round(rules, wallet.w, wallet.coinbaseMaturity, old(Main()), old(Known()), out, best, Main(), Known())
      ensures !out.Refused? ==> NoBetter(wallet.w, Main(), Known())
      ensures !out.Reorganized? ==> wallet.Snap() == old(wallet.Snap())
      ensures out.Reorganized? ==> Total(wallet.w, Tip(Main())) > old(Total(wallet.w, Tip(Main())))
      ensures out.Reorganized? ==> wallet.tipChanges == old(wallet.tipChanges) + [ChangeOf(wallet.w, old(Main()), best)]
      ensures wallet.marker ==
              if out.Reorganized? && mayScan && old(RescanPoint(wallet.w, Main(), wallet.marker)) == None
              then Tip(Main()) else old(wallet.marker)
    {
      hide Inv, Main, Known, NoBetter, BestChoice, NodesOf, Total, RescanPoint, SwitchedMain, SwitchedForest;
      hide BranchValid, RulesOk, ChainValid, ChangeOf;
      InvFacts();
      var chain := BestBranch();
      best := Hashes(chain);
      if |chain| == 0 {
        return UpToDate, [];
      }
      var valid := Validate(chain);
      if !valid {
        return Refused, best;
      }
      var relevant := false;
      if mayScan {
        var pending := RescanPending();
        relevant := !pending;
      }
      SwitchTo(chain, relevant);
      InvFacts();
      out := Reorganized;
    }

    /** The validation of a best branch. */
    method Validate(chain: seq<Node>) returns (valid: bool)
      requires Inv() && |Main()| > 0 && NodesOf(wallet.w, chain)
      requires BestChoice(wallet.w, Main(), Known(), Hashes(chain))
      ensures RulesOk(rules) && (valid <==> BranchValid(rules, wallet.w, Main(), Hashes(chain)))
    {
      BestChoiceConnects(wallet.w, Main(), Known(), Hashes(chain));
      ChoiceFacts(wallet.w, Main(), Known(), Hashes(chain));
      hide BranchValid, BestChoice, Headers.World.IsChain, ChainInv, MainOk, HeadersOk, Replay, Total;
      valid := ValidateBranch(rules, wallet, chain);
    }

    /** Blocks announced by a peer: add them, then scan and switch if better.  The
        marker moves to the new tip exactly if no rescan was pending. */
    method HandleBlockAnnouncements(hashes: seq<Hash>) returns (out: Outcome, ghost best: seq<Hash>)
      requires Inv() && forall h :: h in hashes ==> h in wallet.w.known
      modifies wallet, sidechains, sidechains.TreeSet()
      ensures Inv() && |Main()| > 0 && old(|Main()| > 0)
      ensures Round(rules, wallet.w, wallet.coinbaseMaturity, old(Main()), old(Known()) + (Members(hashes) - Members(old(Main()))),
                    out, best, Main(), Known())
      ensures !out.Refused? ==> NoBetter(wallet.w, Main(), Known())
      ensures !out.Reorganized? ==> wallet.Snap() == old(wallet.Snap())
      ensures out.Reorganized? ==> Total(wallet.w, Tip(Main())) > old(Total(wallet.w, Tip(Main())))
      ensures out.Reorganized? ==> wallet.tipChanges == old(wallet.tipChanges) + [ChangeOf(wallet.w, old(Main()), best)]
      ensures wallet.marker ==
              if out.Reorganized? && old(RescanPoint(wallet.w, Main(), wallet.marker)) == None
              then Tip(Main()) else old(wallet.marker)
    {
      InvFacts();
      hide Inv, Known, NoBetter, Total, RescanPoint, SidechainForest.TreeSet, Members, Round, ChangeOf;
      var added := AddNodes(hashes);
      out, best := SwitchToBest(true);
    }

    /** Headers fetched from a peer: nothing is evaluated if all are known, and
        the switch is made without transactions, so the marker stays. */
    method HandleHeaders(hashes: seq<Hash>) returns (out: Outcome, ghost best: seq<Hash>)
      requires Inv() && forall h :: h in hashes ==> h in wallet.w.known
      modifies wallet, sidechains, sidechains.TreeSet()
      ensures Inv() && |Main()| > 0 && old(|Main()| > 0)
      ensures var known := old(Known()) + (Members(hashes) - Members(old(Main())));
              if known == old(Known()) then out == NothingNew && Known() == known
              else Round(rules, wallet.w, wallet.coinbaseMaturity, old(Main()), known, out, best, Main(), Known())
      ensures out.UpToDate? || out.Reorganized? ==> NoBetter(wallet.w, Main(), Known())
      ensures !out.Reorganized? ==> wallet.Snap() == old(wallet.Snap())
      ensures out.Reorganized? ==> Total(wallet.w, Tip(Main())) > old(Total(wallet.w, Tip(Main())))
      ensures out.Reorganized? ==> wallet.tipChanges == old(wallet.tipChanges) + [ChangeOf(wallet.w, old(Main()), best)]
      ensures wallet.marker == old(wallet.marker)
    {
      InvFacts();
      hide Inv, Known, NoBetter, Total, RescanPoint, SidechainForest.TreeSet, Members, Round, ChangeOf;
      var added := AddNodes(hashes);
      if added == 0 {
        return NothingNew, [];
      }
      out, best := SwitchToBest(false);
    }

    method BestBranch() returns (chain: seq<Node>)
      requires Inv()
      modifies sidechains.TreeSet()`bestChain
      ensures |Main()| > 0
      ensures Inv() && Known() == old(Known()) && sidechains.TreeSet() == old(sidechains.TreeSet())
      ensures chain == [] ==> |Main()| > 0 && NoBetter(wallet.w, Main(), Known())
      ensures chain != [] ==>
        |Main()| > 0 && BestChoice(wallet.w, Main(), Known(), Hashes(chain)) && NodesOf(wallet.w, chain)
    {
      hide Inv, NoBetter, BestChoice, NodesOf, Total, ChainInv, ChainValid, Replay, RulesOk, Wallet.Valid;
      hide SidechainForest.Valid, SidechainForest.Blocks, Headers.World.PositiveWork, Tip;
      InvFacts();
      chain := wallet.EvaluateBestChain(sidechains);
      InvAgain();
    }

    method RescanPending() returns (pending: bool)
      requires Inv()
      ensures pending <==> RescanPoint(wallet.w, Main(), wallet.marker) != None
    {
      var r := wallet.FindRescanPoint();
      pending := r != None;
    }

    /** Switches to a best choice and puts the detached blocks back. */
    method SwitchTo(chain: seq<Node>, relevant: bool)
      requires Inv() && chain != [] && NodesOf(wallet.w, chain)
      requires |Main()| > 0 && BestChoice(wallet.w, Main(), Known(), Hashes(chain))
      requires relevant ==> RescanPoint(wallet.w, Main(), wallet.marker) == None
      requires RulesOk(rules) && BranchValid(rules, wallet.w, Main(), Hashes(chain))
      modifies wallet, sidechains, sidechains.TreeSet()
      ensures Inv() && |Main()| > 0
      ensures Main() == SwitchedMain(wallet.w, old(Main()), Hashes(chain))
      ensures Known() == SwitchedForest(wallet.w, old(Main()), old(Known()), Hashes(chain), wallet.coinbaseMaturity)
      ensures Total(wallet.w, Tip(Main())) > old(Total(wallet.w, Tip(Main())))
      ensures NoBetter(wallet.w, Main(), Known())
      ensures wallet.tipChanges == old(wallet.tipChanges) + [ChangeOf(wallet.w, old(Main()), Hashes(chain))]
      ensures wallet.marker == if relevant then Tip(Main()) else old(wallet.marker)
    {
      hide Inv, BestChoice, NodesOf, Headers.World.IsChain, MainOk, HeadersOk, AfterPruning, SwitchedMain, SwitchedForest;
      hide NoBetter, Total, ChainInv, Replay, RescanPoint, ForestWf, ForestBlocks, Detached, FreshNodes, ChangeOf;
      hide Wallet.Valid, SidechainForest.Valid, SidechainForest.TreeSet, SidechainForest.Blocks, Members, Tip;
      hide ChainValid, BranchValid, RulesOk;
      ghost var w, maturity := wallet.w, wallet.coinbaseMaturity;
      ghost var main, known, changes := Main(), Known(), wallet.tipChanges;
      ghost var hs := Hashes(chain);
      InvFacts();
      SwitchDone(w, main, known, hs, clientStart, changes, maturity);
      LeftoversKnown(w, main, known, hs, maturity);
      SwitchStaysTrue(rules, w, main, hs);
      var prev := DetachAndAttach(chain, relevant);
      PutBack(prev);
      InvAgain();
    }

    lemma InvFacts()
      requires Inv()
      ensures |Main()| > 0 && Total(wallet.w, wallet.marker) <= Total(wallet.w, Tip(Main()))
      ensures wallet.Valid() && sidechains.Valid()
      ensures ChainInv(wallet.w, Main(), Known()) && Replay(clientStart, wallet.tipChanges) == Main()
      ensures wallet.w.PositiveWork() && sidechains.w == wallet.w && RulesOk(rules) && ChainValid(rules, wallet.w, Main())
    {
    }

    lemma InvAgain()
      requires wallet.Valid() && sidechains.Valid() && sidechains.w == wallet.w && wallet.w.PositiveWork()
      requires ChainInv(wallet.w, Main(), Known()) && |Main()| > 0
      requires Total(wallet.w, wallet.marker) <= Total(wallet.w, Tip(Main()))
      requires Replay(clientStart, wallet.tipChanges) == Main() && ChainValid(rules, wallet.w, Main())
      ensures Inv()
    {
    }

    /** The call of ChainSwitch, which succeeds. */
    method DetachAndAttach(chain: seq<Node>, relevant: bool) returns (prev: seq<Node>)
      requires Inv() && chain != [] && NodesOf(wallet.w, chain)
      requires |Main()| > 0 && BestChoice(wallet.w, Main(), Known(), Hashes(chain))
      requires relevant ==> RescanPoint(wallet.w, Main(), wallet.marker) == None
      modifies wallet, sidechains`trees
      ensures wallet.Valid() && sidechains.Valid() && sidechains.TreeSet() <= old(sidechains.TreeSet())
      ensures Main() == SwitchedMain(wallet.w, old(Main()), Hashes(chain))
      ensures DetachedNodes(wallet.w, old(Main()), Hashes(chain), prev)
      ensures Known() == AfterPruning(wallet.w, old(Known()), Hashes(chain), wallet.coinbaseMaturity)
      ensures wallet.tipChanges == old(wallet.tipChanges) + [ChangeOf(wallet.w, old(Main()), Hashes(chain))]
      ensures |Main()| > 0 && wallet.marker == if relevant then Tip(Main()) else old(wallet.marker)
    {
      ghost var hs := Hashes(chain);
      SwitchAccepted(hs, relevant);
      AcceptedBranch(wallet.w, Main(), hs);
      assert wallet.Valid() && sidechains.Valid() && sidechains.w == wallet.w && OwnHeaders(wallet.w, chain);
      hide BestChoice, NodesOf, Connects, Headers.World.IsChain, SwitchMarker, MainOk, HeadersOk, AfterPruning;
      hide OwnHeaders, Accepted, AcceptedMain, WithHeaders;
      hide DetachedNodes, ChangeOf, Wallet.Valid, SidechainForest.Valid, SidechainForest.TreeSet, Inv, ForestWf, ForestBlocks;
      var res := wallet.ChainSwitch(sidechains, chain, relevant);
      prev := res.prev;
    }

    /** Why ChainSwitch neither fails nor crashes on the branch it is given. */
    lemma SwitchAccepted(hs: seq<Hash>, relevant: bool)
      requires Inv() && BestChoice(wallet.w, Main(), Known(), hs)
      requires relevant ==> RescanPoint(wallet.w, Main(), wallet.marker) == None
      ensures Connects(wallet.w, Main(), hs) && wallet.w.IsChain(hs)
      ensures forall h :: h in hs ==> h in wallet.w.known
      ensures relevant ==>
        var main' := SwitchedMain(wallet.w, Main(), hs);
        SwitchMarker(wallet.w, main', hs, wallet.marker) == Some(Tip(main'))
    {
      var w := wallet.w;
      BestChoiceConnects(w, Main(), Known(), hs);
      ChoiceFacts(w, Main(), Known(), hs);
      if relevant {
        RecordedIsRooted(w, Main(), wallet.headers, wallet.marker);
        SwitchMovesMarker(w, Main(), Known(), hs, wallet.marker);
      }
    }

    /** Adds detached blocks to the forest again. */
    method PutBack(prev: seq<Node>)
      requires sidechains.Valid() && FreshNodes(sidechains.w, prev)
      requires sidechains.w.Linked() && sidechains.Blocks() + Members(Hashes(prev)) <= sidechains.w.known
      modifies sidechains, sidechains.TreeSet()
      ensures sidechains.Valid()
      ensures sidechains.Blocks() == old(sidechains.Blocks()) + Members(Hashes(prev))
    {
      hide SidechainForest.Valid, SidechainForest.Blocks, Members, Headers.World.Linked;
      hide Hashes, FreshNodes, ForestWf, ForestBlocks, SidechainForest.Distinct;
      ghost var hs := Hashes(prev);
      ghost var known := sidechains.Blocks();
      var i := 0;
      NoMembers(known, hs);
      hide SidechainForest.TreeSet;
      while i < |prev|
        invariant 0 <= i <= |prev| == |hs| && sidechains.Valid()
        invariant fresh(sidechains.TreeSet() - old(sidechains.TreeSet()))
        invariant sidechains.Blocks() == known + Members(hs[..i])
      {
        MembersStep(hs, i);
        UnionStep(known, Members(hs[..i]), hs[i], Members(hs));
        FreshAt(sidechains.w, prev, i);
        PutOneBack(prev[i]);
        i := i + 1;
      }
      assert hs[..i] == hs;
    }

    method PutOneBack(n: Node)
      requires sidechains.Valid() && n.header == sidechains.w.headerOf(n.hash) && n.parent == NoParent
      requires sidechains.w.Linked() && sidechains.Blocks() + {n.hash} <= sidechains.w.known
      modifies sidechains, sidechains.TreeSet()
      ensures sidechains.Valid() && sidechains.Blocks() == old(sidechains.Blocks()) + {n.hash}
      ensures fresh(sidechains.TreeSet() - old(sidechains.TreeSet()))
    {
      LinkedNeverMisplaced(sidechains.w, sidechains.Values(), n.hash);
      var r := sidechains.AddBlockNode(n);
    }
  }

  lemma LeftoversKnown(w: World, main: seq<Hash>, s: set<Hash>, hs: seq<Hash>, maturity: nat)
    requires ChainInv(w, main, s) && BestChoice(w, main, s, hs)
    ensures AfterPruning(w, s, hs, maturity) + Members(Detached(w, main, hs)) <= w.known
    ensures AfterPruning(w, s, hs, maturity) + Members(Detached(w, main, hs)) == SwitchedForest(w, main, s, hs, maturity)
    ensures w.Linked()
  {
    SwitchKeepsInv(w, main, s, hs, maturity);
  }

  /** Everything that holds after a switch and the return of its detached
      blocks. */
  lemma SwitchDone(w: World, main: seq<Hash>, s: set<Hash>, hs: seq<Hash>, start: seq<Hash>, changes: seq<TipChange>, maturity: nat)
    requires ChainInv(w, main, s) && BestChoice(w, main, s, hs) && Replay(start, changes) == main
    ensures var main' := SwitchedMain(w, main, hs);
            var s' := SwitchedForest(w, main, s, hs, maturity);
            && ChainInv(w, main', s') && |main'| > 0 && NoBetter(w, main', s')
            && Total(w, Tip(main')) > Total(w, Tip(main))
            && Replay(start, changes + [ChangeOf(w, main, hs)]) == main'
  {
    SwitchKeepsInv(w, main, s, hs, maturity);
    RoundReachesHeaviest(w, main, s, hs, maturity);
    SwitchAddsWork(w, main, s, hs);
    ReplaySwitch(w, start, changes, main, hs);
  }

  lemma OneAnnounced(known: set<Hash>, main: seq<Hash>, h: Hash)
    ensures h in main <==> h in Members(main)
    ensures known + ({h} - Members(main)) == if h in main then known else known + {h}
  {
  }

  lemma FreshAt(w: World, nodes: seq<Node>, i: nat)
    requires FreshNodes(w, nodes) && i < |nodes|
    ensures nodes[i].header == w.headerOf(nodes[i].hash) && nodes[i].parent == NoParent
    ensures Hashes(nodes)[i] == nodes[i].hash
  {
  }

  lemma UnionStep(a: set<Hash>, b: set<Hash>, h: Hash, all: set<Hash>)
    ensures (a + b) + {h} == a + (b + {h})
    ensures b + {h} <= all ==> (a + b) + {h} <= a + all
  {
  }

  lemma UnionOfNew(known: set<Hash>, seen: set<Hash>, main: seq<Hash>, h: Hash)
    ensures (known + (seen - Members(main))) + ({h} - Members(main)) == known + ((seen + {h}) - Members(main))
  {
  }

  lemma NoMembers(known: set<Hash>, c: seq<Hash>)
    ensures known + Members(c[..0]) == known
  {
  }

  lemma NoneAnnounced(known: set<Hash>, main: seq<Hash>, c: seq<Hash>)
    ensures known + (Members(c[..0]) - Members(main)) == known
  {
  }

  lemma MembersStep(c: seq<Hash>, i: nat)
    requires i < |c|
    ensures Members(c[..i + 1]) <= Members(c)
    ensures Members(c[..i + 1]) == Members(c[..i]) + {c[i]}
  {
    assert c[..i + 1] == c[..i] + [c[i]];
  }
}

/** The processed-transactions marker (wallet/rescan.go, wallet/udb/txmined.go):
    where a rescan must start, and how the marker moves. */
module Markers {
  import opened Headers
  import opened Options
  import opened BlockSets
  import opened MainChains

  const MAX_BLOCKS_PER_RESCAN := 2000

  /** The nearest ancestor of `h` on the main chain, `h` included. */
  function MainAncestor(w: World, main: seq<Hash>, h: Hash): Hash
    decreases w.Height(h)
  {
    if h in main || !w.IsParent(w.Prev(h), h) then h else MainAncestor(w, main, w.Prev(h))
  }

  /** `h` descends from the genesis block through known blocks. */
  ghost predicate Rooted(w: World, genesis: Hash, h: Hash) {
    h in w.known && RootOf(w, w.known, h) == genesis
  }

  lemma {:induction false} AncestorFacts(w: World, main: seq<Hash>, h: Hash)
    requires w.Linked() && MainOk(w, main) && Rooted(w, main[0], h)
    ensures var a := MainAncestor(w, main, h);
            && a in main && a in BranchTo(w, w.known, h)
            && w.Height(a) <= w.Height(h) && Total(w, a) <= Total(w, h)
            && (a != h ==> h !in main && w.Height(a) < w.Height(h) && a in BranchTo(w, w.known, w.Prev(h)))
    decreases w.Height(h)
  {
    if h !in main {
      assert Attached(w, w.known, h);
      AncestorFacts(w, main, w.Prev(h));
    }
  }

  /** The main chain up to a block is that block's branch of known blocks, and the
      block is its own nearest main chain ancestor. */
  lemma {:induction false} MainIsBranch(w: World, main: seq<Hash>, i: nat)
    requires MainOk(w, main) && i < |main|
    ensures BranchTo(w, w.known, main[i]) == main[..i + 1]
    ensures Rooted(w, main[0], main[i]) && MainAncestor(w, main, main[i]) == main[i]
  {
    if i == 0 {
      assert !w.IsParent(w.Prev(main[0]), main[0]);
      assert main[..1] == [main[0]];
    } else {
      assert w.IsParent(main[i - 1], main[i]) && main[i - 1] in main;
      MainIsBranch(w, main, i - 1);
      assert main[..i + 1] == main[..i] + [main[i]];
    }
  }

  /** The first main chain block whose transactions have not been processed. */
  function RescanPoint(w: World, main: seq<Hash>, marker: Hash): Option<Hash> {
    var a := MainAncestor(w, main, marker);
    if |main| == 0 || a == main[|main| - 1] || w.Height(a) + 1 >= |main| then None
    else Some(main[w.Height(a) + 1])
  }

  /** The marker after it is asked to move to the main chain block `h`. */
  function MovedMarker(w: World, main: seq<Hash>, marker: Hash, h: Hash): Hash {
    if w.Height(h) > w.Height(MainAncestor(w, main, marker)) then h else marker
  }

  lemma RescanPointFacts(w: World, main: seq<Hash>, marker: Hash)
    requires w.Linked() && MainOk(w, main) && Rooted(w, main[0], marker)
    ensures RescanPoint(w, main, marker) == None <==> MainAncestor(w, main, marker) == Tip(main)
    ensures RescanPoint(w, main, marker) != None ==>
      var r := RescanPoint(w, main, marker).value;
      r in main && w.Prev(r) == MainAncestor(w, main, marker) && w.Height(r) == w.Height(w.Prev(r)) + 1
  {
    AncestorFacts(w, main, marker);
    MainHeights(w, main);
    var a := MainAncestor(w, main, marker);
    var i :| 0 <= i < |main| && main[i] == a;
    if i + 1 < |main| {
      assert w.IsParent(main[i], main[i + 1]);
    }
  }

  /** Every known ancestor of `h` above the genesis block, and `h`, has been
      scanned. */
  ghost predicate ScannedThrough(w: World, scanned: set<Hash>, h: Hash) {
    forall x :: x in BranchTo(w, w.known, h) && w.Height(x) > 0 ==> x in scanned
  }

  /** Scanning a child extends what has been scanned through. */
  lemma ScanChild(w: World, scanned: set<Hash>, p: Hash, c: Hash)
    requires p in w.known && w.IsParent(p, c)
    requires ScannedThrough(w, scanned, p)
    ensures ScannedThrough(w, scanned + {c}, c)
  {
    assert BranchTo(w, w.known, c) == BranchTo(w, w.known, p) + [c];
  }

  /** Everything at or below a block that has been scanned through counts as
      scanned through. */
  lemma {:induction false} ScannedBelow(w: World, scanned: set<Hash>, h: Hash, a: Hash)
    requires ScannedThrough(w, scanned, h) && a in BranchTo(w, w.known, h)
    ensures ScannedThrough(w, scanned, a)
    decreases w.Height(h)
  {
    if a != h {
      var p := w.Prev(h);
      assert Attached(w, w.known, h);
      assert BranchTo(w, w.known, h) == BranchTo(w, w.known, p) + [h];
      ScannedBelow(w, scanned, p, a);
    }
  }

  lemma {:induction false} RootedParent(w: World, genesis: Hash, h: Hash)
    requires Rooted(w, genesis, h) && h != genesis
    ensures Attached(w, w.known, h) && Rooted(w, genesis, w.Prev(h))
  {
  }

  /** When nothing is pending, the whole main chain has been scanned. */
  lemma NothingPending(w: World, main: seq<Hash>, marker: Hash, scanned: set<Hash>)
    requires w.Linked() && MainOk(w, main) && Rooted(w, main[0], marker)
    requires ScannedThrough(w, scanned, marker) && RescanPoint(w, main, marker) == None
    ensures ScannedThrough(w, scanned, Tip(main))
  {
    RescanPointFacts(w, main, marker);
    AncestorFacts(w, main, marker);
    ScannedBelow(w, scanned, marker, Tip(main));
  }

  /** A marker that has never carried more work than the tip cannot be a strict
      descendant of the tip. */
  lemma MarkerNotBeyondTip(w: World, main: seq<Hash>, marker: Hash)
    requires w.Linked() && w.PositiveWork() && MainOk(w, main) && Rooted(w, main[0], marker)
    requires Total(w, marker) <= Total(w, Tip(main)) && RescanPoint(w, main, marker) == None
    ensures marker == Tip(main)
  {
    RescanPointFacts(w, main, marker);
    if marker !in main {
      assert Attached(w, w.known, marker);
      AncestorFacts(w, main, w.Prev(marker));
    }
  }

  /** The marker ChainSwitch leaves behind when it is given transactions: it
      moves to the new tip unless that would skip unprocessed blocks. */
  function SwitchMarker(w: World, main': seq<Hash>, chain: seq<Hash>, marker: Hash): Option<Hash>
    requires |chain| > 0
  {
    match RescanPoint(w, main', marker)
    case None => None
    case Some(r) =>
      if w.Height(r) + 1 < w.Height(chain[0]) then Some(marker)
      else Some(MovedMarker(w, main', marker, Tip(chain)))
  }

  /** The marker after such a switch, by heights: with nothing pending on the new chain
      there is no rescan point; the marker stays if the branch begins more than two
      blocks above the marker's nearest ancestor, and is the new tip otherwise. */
  lemma SwitchMarkerExactly(w: World, main': seq<Hash>, chain: seq<Hash>, marker: Hash)
    requires w.Linked() && MainOk(w, main') && Rooted(w, main'[0], marker) && |chain| > 0 && Tip(chain) == Tip(main')
    ensures var a := MainAncestor(w, main', marker);
            SwitchMarker(w, main', chain, marker) ==
            if a == Tip(main') then None
            else Some(if w.Height(a) + 2 < w.Height(chain[0]) then marker else Tip(main'))
  {
    RescanPointFacts(w, main', marker);
    AncestorFacts(w, main', marker);
    MainHeights(w, main');
    var i :| 0 <= i < |main'| && main'[i] == MainAncestor(w, main', marker);
  }

  /** Under the callers' guard (no rescan pending), a switch with transactions
      finds a rescan point, moves the marker to the new tip, and leaves no rescan
      pending. */
  lemma SwitchMovesMarker(w: World, main: seq<Hash>, s: set<Hash>, chain: seq<Hash>, marker: Hash)
    requires ChainInv(w, main, s) && BestChoice(w, main, s, chain) && w.PositiveWork()
    requires Rooted(w, main[0], marker) && Total(w, marker) <= Total(w, Tip(main))
    requires RescanPoint(w, main, marker) == None
    ensures var main' := SwitchedMain(w, main, chain);
            && SwitchMarker(w, main', chain, marker) == Some(Tip(main'))
            && RescanPoint(w, main', Tip(main')) == None
  {
    var f := ForkHeight(w, main, chain);
    var main' := SwitchedMain(w, main, chain);
    SwitchFindsFork(w, main, s, chain, marker);
    hide ChainInv, BestChoice, Rooted;
    MainHeights(w, main');
    MainIsBranch(w, main', |main'| - 1);
    RescanPointFacts(w, main', Tip(main'));
  }

  /** With nothing pending, the marker's nearest ancestor on the switched chain is
      the block below the fork, so the rescan point is the first new block. */
  lemma SwitchFindsFork(w: World, main: seq<Hash>, s: set<Hash>, chain: seq<Hash>, marker: Hash)
    requires ChainInv(w, main, s) && BestChoice(w, main, s, chain) && w.PositiveWork()
    requires Rooted(w, main[0], marker) && Total(w, marker) <= Total(w, Tip(main))
    requires RescanPoint(w, main, marker) == None
    ensures var main' := SwitchedMain(w, main, chain);
            var f := ForkHeight(w, main, chain);
            && 0 < f < |main'| && main'[f] == chain[0] && Tip(main') == Tip(chain)
            && w.Linked() && MainOk(w, main') && main'[0] == main[0] && Rooted(w, main'[0], Tip(main'))
            && w.Height(MainAncestor(w, main', marker)) == f - 1 && w.Height(chain[0]) == f
            && RescanPoint(w, main', marker) == Some(chain[0])
  {
    hide Rooted, RescanPoint, BranchTo, Total, Headers.World.PositiveWork, Headers.World.Linked;
    var f := ForkHeight(w, main, chain);
    var main' := SwitchedMain(w, main, chain);
    ForkFacts(w, main, s, chain);
    MarkerNotBeyondTip(w, main, marker);
    DetachedNotInMain(w, main, s, chain);
    MainIsBranch(w, main', |main'| - 1);
    AncestorIsFork(w, main, main', f, |main| - 1);
    PointAt(w, main', marker, f);
  }

  /** A switch keeps the old main chain below the fork and puts the branch on top. */
  lemma ForkFacts(w: World, main: seq<Hash>, s: set<Hash>, chain: seq<Hash>)
    requires ChainInv(w, main, s) && BestChoice(w, main, s, chain)
    ensures var main' := SwitchedMain(w, main, chain);
            var f := ForkHeight(w, main, chain);
            && 0 < f < |main'| && f <= |main| && main'[f] == chain[0] && main'[..f] == main[..f]
            && w.Linked() && MainOk(w, main) && MainOk(w, main')
            && main'[0] == main[0] && Tip(main') == Tip(chain)
            && w.Height(main'[f - 1]) == f - 1 && w.Height(chain[0]) == f
  {
    ChoiceFacts(w, main, s, chain);
    SwitchKeepsMain(w, main, s, chain);
    MainHeights(w, SwitchedMain(w, main, chain));
  }

  lemma PointAt(w: World, main: seq<Hash>, marker: Hash, f: nat)
    requires MainOk(w, main) && 0 < f < |main|
    requires MainAncestor(w, main, marker) == main[f - 1]
    ensures RescanPoint(w, main, marker) == Some(main[f])
  {
    MainHeights(w, main);
  }

  /** If the new blocks were scanned, such a switch leaves everything up to the new
      tip scanned. */
  lemma SwitchScans(w: World, main: seq<Hash>, s: set<Hash>, chain: seq<Hash>, marker: Hash, scanned: set<Hash>)
    requires ChainInv(w, main, s) && BestChoice(w, main, s, chain) && w.PositiveWork()
    requires Rooted(w, main[0], marker) && Total(w, marker) <= Total(w, Tip(main))
    requires RescanPoint(w, main, marker) == None && ScannedThrough(w, scanned, marker)
    ensures ScannedThrough(w, scanned + Members(chain), Tip(SwitchedMain(w, main, chain)))
  {
    SwitchFindsFork(w, main, s, chain, marker);
    NothingPending(w, main, marker, scanned);
    AllScanned(w, main, SwitchedMain(w, main, chain), ForkHeight(w, main, chain), chain, scanned);
  }

  lemma AllScanned(w: World, main: seq<Hash>, main': seq<Hash>, f: nat, chain: seq<Hash>, scanned: set<Hash>)
    requires MainOk(w, main) && MainOk(w, main') && f <= |main| && main' == main[..f] + chain
    requires ScannedThrough(w, scanned, Tip(main))
    ensures ScannedThrough(w, scanned + Members(chain), Tip(main'))
  {
    MainIsBranch(w, main, |main| - 1);
    MainIsBranch(w, main', |main'| - 1);
    assert main'[..|main'|] == main' && main[..|main|] == main;
    forall x | x in main' && w.Height(x) > 0
      ensures x in scanned + Members(chain)
    {
      if x !in chain {
        assert x in main[..f];
        assert x in main;
      }
    }
  }

  lemma DetachedNotInMain(w: World, main: seq<Hash>, s: set<Hash>, chain: seq<Hash>)
    requires ChainInv(w, main, s) && BestChoice(w, main, s, chain)
    ensures forall j :: ForkHeight(w, main, chain) <= j < |main| ==> main[j] !in SwitchedMain(w, main, chain)
  {
    ChoiceFacts(w, main, s, chain);
    MainHeights(w, main);
    var f := ForkHeight(w, main, chain);
    forall j | f <= j < |main|
      ensures main[j] !in SwitchedMain(w, main, chain)
    {
      assert main[j] in main;
      assert main[j] !in chain;
      forall k | 0 <= k < f
        ensures main[k] != main[j]
      {
        assert w.Height(main[k]) == k && w.Height(main[j]) == j;
      }
      assert main[j] !in main[..f];
    }
  }

  /** A block of the old main chain above the fork falls back to the fork. */
  lemma {:induction false} AncestorIsFork(w: World, main: seq<Hash>, main': seq<Hash>, f: nat, i: nat)
    requires MainOk(w, main) && MainOk(w, main')
    requires 0 < f <= |main| && f <= |main'| && main'[..f] == main[..f] && f - 1 <= i < |main|
    requires forall j :: f <= j < |main| ==> main[j] !in main'
    ensures MainAncestor(w, main', main[i]) == main[f - 1]
  {
    if i == f - 1 {
      assert main'[..f][f - 1] == main[f - 1];
      assert main'[f - 1] in main';
    } else {
      assert w.IsParent(main[i - 1], main[i]);
      AncestorIsFork(w, main, main', f, i - 1);
    }
  }
}

/** wallet/sidechains.go: the in-memory forest of sidechain and orphan blocks. */
module Sidechains {
  import opened Headers
  import opened BlockSets
  import opened RootedTrees
  import opened Forests
  import opened SidechainTrees

  /** `Panicked` is the internal consistency error of AddBlockNode. */
  datatype AddResult = Added | Duplicate | Panicked

  class SidechainForest {
    const w: World
    var trees: seq<RootedTree>

    ghost function Values(): (ts: seq<Tree>)
      reads this, trees
      ensures |ts| == |trees|
      ensures forall i :: 0 <= i < |ts| ==> ts[i] == trees[i].Value()
    {
      seq(|trees|, i requires 0 <= i < |trees| reads this, trees => trees[i].Value())
    }

    ghost function TreeSet(): set<RootedTree>
      reads this
    {
      set t | t in trees
    }

    ghost predicate Distinct()
      reads this
    {
      forall i, j :: 0 <= i < j < |trees| ==> trees[i] != trees[j]
    }

    ghost predicate Valid()
      reads this, trees
    {
      Distinct() && ForestWf(w, Values())
    }

    ghost function Blocks(): set<Hash>
      reads this, trees
    {
      ForestBlocks(Values())
    }

    constructor (w: World)
      ensures Valid() && Blocks() == {} && this.w == w && trees == []
    {
      this.w := w;
      trees := [];
    }

    /** The first loop of AddBlockNode: find the tree `n` belongs to, or start
        one. */
    method PlaceNode(n: Node) returns (dup: bool, nodeTree: RootedTree?)
      requires Valid()
      requires n.header == w.headerOf(n.hash) && n.parent == NoParent
      modifies this, TreeSet()
      ensures dup <==> n.hash in old(Blocks())
      ensures dup ==> trees == old(trees) && Values() == old(Values())
      ensures !dup ==> Distinct() && nodeTree in trees && n.hash in nodeTree.Value().Blocks()
      ensures !dup ==> Pending(w, Values(), n.hash) && Blocks() == old(Blocks()) + {n.hash}
      ensures !dup ==> (BadRoot(w, Values(), n.hash) <==> Misplaced(w, old(Values()), n.hash))
      ensures fresh(TreeSet() - old(TreeSet()))
    {
      ghost var ts := Values();
      var k := 0;
      while k < |trees|
        invariant 0 <= k <= |trees|
        invariant trees == old(trees) && Values() == ts
        invariant forall i :: 0 <= i < k ==>
          n.hash !in ts[i].Blocks() && !Attached(w, ts[i].Blocks(), n.hash)
      {
        var t := trees[k];
        assert ts[k] == t.Value() && ts[k].Structured(w);
        hide ForestWf, ForestBlocks, Tree.Wf, Tree.Structured, Tree.Blocks, Attach, Pending, BadRoot, Misplaced;
        var isDup := t.DuplicateNode(n);
        if isDup {
          InSomeTree(ts, k, n.hash);
          return true, null;
        }
        var attached := t.MaybeAttachNode(w, n);
        if attached {
          PlacedInTree(w, ts, k, n);
          assert Values() == ts[k := t.Value()];
          return false, t;
        }
        assert Values() == ts;
        k := k + 1;
      }
      dup := false;
      nodeTree := StartTree(n);
    }

    /** A block that belongs to no tree starts one. */
    method StartTree(n: Node) returns (nodeTree: RootedTree)
      requires Valid()
      requires n.header == w.headerOf(n.hash) && n.parent == NoParent
      requires forall i :: 0 <= i < |trees| ==>
                 n.hash !in Values()[i].Blocks() && !Attached(w, Values()[i].Blocks(), n.hash)
      modifies this
      ensures n.hash !in old(Blocks()) && fresh(nodeTree)
      ensures Distinct() && trees == old(trees) + [nodeTree] && n.hash in nodeTree.Value().Blocks()
      ensures Pending(w, Values(), n.hash) && Blocks() == old(Blocks()) + {n.hash}
      ensures BadRoot(w, Values(), n.hash) <==> Misplaced(w, old(Values()), n.hash)
    {
      ghost var ts := Values();
      nodeTree := new RootedTree(w, n);
      Nowhere(w, ts, n.hash);
      trees := trees + [nodeTree];
      assert Values() == ts + [nodeTree.Value()];
      AppendPending(w, ts, nodeTree.Value());
      AppendedBadRoot(w, ts, nodeTree.Value());
    }

    /** Adds a block.  An orphan tree whose root names the block is merged below
        it, so trees stay disjoint and maximal.  The panic happens exactly when
        a root (or the block itself) names the block at a wrong height. */
    method AddBlockNode(n: Node) returns (r: AddResult)
      requires Valid()
      requires n.header == w.headerOf(n.hash) && n.parent == NoParent
      modifies this, TreeSet()
      ensures r == Duplicate <==> n.hash in old(Blocks())
      ensures r == Panicked <==> n.hash !in old(Blocks()) && Misplaced(w, old(Values()), n.hash)
      ensures r == Duplicate ==> trees == old(trees) && Values() == old(Values())
      ensures r == Added ==> Valid() && Blocks() == old(Blocks()) + {n.hash}
      ensures fresh(TreeSet() - old(TreeSet()))
    {
      var dup, nodeTree := PlaceNode(n);
      if dup {
        return Duplicate;
      }
      var ok := MergeOrphans(nodeTree, n);
      if ok {
        r := Added;
      } else {
        r := Panicked;
      }
    }

    /** The second loop of AddBlockNode: every tree whose root names `n` joins
        the tree of `n`. */
    method MergeOrphans(nodeTree: RootedTree, n: Node) returns (ok: bool)
      requires Distinct() && nodeTree in trees && n.hash in nodeTree.Value().Blocks()
      requires Pending(w, Values(), n.hash)
      modifies this, TreeSet()
      ensures ok <==> !BadRoot(w, old(Values()), n.hash)
      ensures ok ==> Distinct() && ForestWf(w, Values())
      ensures ok ==> ForestBlocks(Values()) == old(ForestBlocks(Values()))
      ensures TreeSet() <= old(TreeSet())
    {
      var i := 0;
      while i < |trees|
        invariant 0 <= i <= |trees|
        invariant Distinct() && nodeTree in trees && n.hash in nodeTree.Value().Blocks()
        invariant Pending(w, Values(), n.hash)
        invariant ForestBlocks(Values()) == old(ForestBlocks(Values()))
        invariant BadRoot(w, Values(), n.hash) <==> BadRoot(w, old(Values()), n.hash)
        invariant Passed(w, Values(), i, n.hash)
        invariant TreeSet() <= old(TreeSet())
        decreases |trees| - i
      {
        hide Pending, BadRoot, ForestBlocks, Tree.Blocks;
        var names := NamesBlock(i, n.hash);
        if names {
          ok := AbsorbTree(i, nodeTree, n.hash);
          if !ok {
            return;
          }
        } else {
          i := i + 1;
        }
      }
      PendingDone(w, Values(), n.hash);
      ok := true;
    }

    method NamesBlock(i: nat, n: Hash) returns (names: bool)
      requires i < |trees| && Pending(w, Values(), n)
      ensures names <==> w.Prev(Values()[i].root.hash) == n
      ensures !names ==> Passed(w, Values(), i, n) ==> Passed(w, Values(), i + 1, n)
    {
      RootHeader(w, Values(), i);
      names := trees[i].root.header.prev == n;
    }

    /** Moves the blocks of tree `i` into `nodeTree` and drops tree `i`. */
    method AbsorbTree(i: nat, nodeTree: RootedTree, n: Hash) returns (ok: bool)
      requires i < |trees| && nodeTree in trees && Distinct()
      requires Pending(w, Values(), n) && Passed(w, Values(), i, n)
      requires n in nodeTree.Value().Blocks() && w.Prev(Values()[i].root.hash) == n
      modifies `trees, nodeTree
      ensures TreeSet() <= old(TreeSet())
      ensures !ok ==> BadRoot(w, old(Values()), n)
      ensures ok ==> Distinct() && |trees| == |old(trees)| - 1
      ensures ok ==> nodeTree in trees && n in nodeTree.Value().Blocks()
      ensures ok ==> Pending(w, Values(), n) && Passed(w, Values(), i, n)
      ensures ok ==> ForestBlocks(Values()) == old(ForestBlocks(Values()))
      ensures ok ==> (BadRoot(w, Values(), n) <==> BadRoot(w, old(Values()), n))
    {
      hide Pending, Passed, TreesOk, Tree.Wf, Tree.Blocks, ForestBlocks;
      ghost var ts := Values();
      ghost var k :| 0 <= k < |trees| && trees[k] == nodeTree;
      PendingTrees(w, ts, n);
      OneOrDisjoint(w, ts, k, i);
      ok := AttachAll(w, nodeTree, trees[i], n);
      if ok {
        ghost var u := nodeTree.Value();
        assert Values() == ts[k := u];
        AbsorbPending(w, ts, k, i, u, n);
        AbsorbBadRoot(w, ts, k, i, u, n);
        AbsorbKeepsRoots(w, ts, k, i, u, n);
        InUnion(n, ts[k].Blocks(), ts[i].Blocks());
        DropAbsorbed(i, k);
      }
    }

    /** Drops tree `i`; tree `k` stays. */
    method DropAbsorbed(i: nat, ghost k: nat)
      requires i < |trees| && k < |trees| && i != k && Distinct()
      modifies `trees
      ensures Distinct() && TreeSet() <= old(TreeSet()) && |trees| == |old(trees)| - 1
      ensures Values() == SwapRemove(old(Values()), i) && old(trees[k]) in trees
    {
      DropTree(i);
      assert trees[if k == |trees| then i else k] == old(trees[k]);
    }

    /** Removes the trees whose root is far behind the main chain tip. */
    method Prune(mainChainHeight: nat, coinbaseMaturity: nat)
      requires Valid()
      modifies `trees
      ensures Valid() && TreeSet() <= old(TreeSet())
      ensures Blocks() == Recent(w, old(Blocks()), mainChainHeight, coinbaseMaturity)
    {
      ghost var all := Blocks();
      var i := 0;
      while i < |trees|
        invariant 0 <= i <= |trees| && Valid() && TreeSet() <= old(TreeSet())
        invariant PruneProgress(w, all, Values(), i, mainChainHeight, coinbaseMaturity)
        decreases |trees| - i
      {
        PruneStep(w, all, Values(), i, mainChainHeight, coinbaseMaturity);
        DropKeepsForest(w, Values(), i);
        hide ForestBlocks, Tree.Blocks, Tree.Wf, PruneProgress, ForestWf, TreeOf;
        if trees[i].root.header.height + coinbaseMaturity < mainChainHeight {
          DropTree(i);
        } else {
          i := i + 1;
        }
      }
      PruneDone(w, all, Values(), mainChainHeight, coinbaseMaturity);
    }

    /** Removes the tree that starts at `root`, if there is one. */
    method PruneTree(root: Hash)
      requires Valid()
      modifies `trees
      ensures Valid() && TreeSet() <= old(TreeSet())
      ensures Blocks() == old(Blocks()) - TreeOf(w, old(Blocks()), root)
    {
      ghost var ts := Values();
      var i := 0;
      while i < |trees|
        invariant 0 <= i <= |trees| && trees == old(trees) && Values() == ts
        invariant forall k :: 0 <= k < i ==> ts[k].root.hash != root
      {
        if trees[i].root.hash == root {
          DropKeepsForest(w, ts, i);
          hide ForestBlocks, Tree.Blocks, Tree.Wf, ForestWf, TreeOf;
          DropTree(i);
          return;
        }
        i := i + 1;
      }
      NoSuchTree(w, ts, root);
    }

    /** Removes tree `i` by moving the last tree into its place. */
    method DropTree(i: nat)
      requires i < |trees| && Distinct()
      modifies `trees
      ensures trees == SwapRemove(old(trees), i) && Values() == SwapRemove(old(Values()), i)
      ensures Distinct() && TreeSet() <= old(TreeSet())
    {
      ghost var ts := Values();
      trees := SwapRemove(trees, i);
      forall j | 0 <= j < |trees|
        ensures Values()[j] == SwapRemove(ts, i)[j]
      {
      }
    }
  }

  /** A root that names `n` at a height other than the one above it. */
  ghost predicate BadRoot(w: World, ts: seq<Tree>, n: Hash) {
    exists i :: 0 <= i < |ts| && w.Prev(ts[i].root.hash) == n && !w.IsParent(n, ts[i].root.hash)
  }

  /** None of the first `i` roots names `n`. */
  ghost predicate Passed(w: World, ts: seq<Tree>, i: nat, n: Hash) {
    i <= |ts| && forall k :: 0 <= k < i ==> w.Prev(ts[k].root.hash) != n
  }

  /** A block whose parent is in tree `k` is in no other tree. */
  lemma NotElsewhere(w: World, ts: seq<Tree>, k: nat, n: Hash)
    requires ForestWf(w, ts) && k < |ts|
    requires n !in ts[k].Blocks() && Attached(w, ts[k].Blocks(), n)
    ensures n !in ForestBlocks(ts)
  {
    InSomeTree(ts, k, w.Prev(n));
    forall i | 0 <= i < |ts|
      ensures n !in ts[i].Blocks()
    {
      NotInTree(w, ts, k, i, n);
    }
  }

  lemma NotInTree(w: World, ts: seq<Tree>, k: nat, i: nat, n: Hash)
    requires ForestWf(w, ts) && k < |ts| && i < |ts| && w.Prev(n) in ForestBlocks(ts)
    requires n !in ts[k].Blocks() && Attached(w, ts[k].Blocks(), n)
    ensures n !in ts[i].Blocks()
  {
    hide Tree.Wf, Tree.Blocks, ForestBlocks;
    ParentInTree(w, ts[i], n);
  }

  lemma ParentInTree(w: World, t: Tree, n: Hash)
    requires t.Wf(w)
    ensures n in t.Blocks() ==> n == t.root.hash || w.Prev(n) in t.Blocks()
  {
    assert n in t.Blocks() ==> n == t.root.hash || t.ChildOk(w, n);
  }

  lemma InSomeTree(ts: seq<Tree>, k: nat, h: Hash)
    requires k < |ts| && h in ts[k].Blocks()
    ensures h in ForestBlocks(ts)
  {
  }

  /** Attaching `n` in tree `k` adds just `n` to the forest. */
  lemma PlacedInTree(w: World, ts: seq<Tree>, k: nat, n: Node)
    requires ForestWf(w, ts) && k < |ts| && ts[k].Structured(w)
    requires n.header == w.headerOf(n.hash) && n.hash !in ts[k].Blocks() && Attached(w, ts[k].Blocks(), n.hash)
    ensures n.hash !in ForestBlocks(ts)
    ensures var u := Attach(w, ts[k], w.Prev(n.hash), n);
            && n.hash in u.Blocks()
            && Pending(w, ts[k := u], n.hash) && ForestBlocks(ts[k := u]) == ForestBlocks(ts) + {n.hash}
            && (BadRoot(w, ts[k := u], n.hash) <==> Misplaced(w, ts, n.hash))
  {
    var u := Attach(w, ts[k], w.Prev(n.hash), n);
    NotElsewhere(w, ts, k, n.hash);
    AttachKeepsStructure(w, ts[k], n);
    assert u.root == ts[k].root;
    hide ForestWf, ForestBlocks, Tree.Wf, Tree.Structured, Tree.Blocks, Attach, Pending, BadRoot, Misplaced;
    AttachPending(w, ts, k, n.hash, u);
    AttachedBadRoot(w, ts, k, n.hash, u);
  }

  lemma Nowhere(w: World, ts: seq<Tree>, n: Hash)
    requires forall i :: 0 <= i < |ts| ==> n !in ts[i].Blocks() && !Attached(w, ts[i].Blocks(), n)
    ensures n !in ForestBlocks(ts) && !Attached(w, ForestBlocks(ts), n)
  {
  }

  lemma AttachedBadRoot(w: World, ts: seq<Tree>, k: nat, n: Hash, u: Tree)
    requires k < |ts| && u.root == ts[k].root
    requires n !in ts[k].Blocks() && Attached(w, ts[k].Blocks(), n)
    ensures BadRoot(w, ts[k := u], n) <==> Misplaced(w, ts, n)
  {
    var us := ts[k := u];
    assert forall i :: 0 <= i < |ts| ==> us[i].root == ts[i].root;
  }

  lemma AppendedBadRoot(w: World, ts: seq<Tree>, u: Tree)
    ensures BadRoot(w, ts + [u], u.root.hash) <==> Misplaced(w, ts, u.root.hash)
  {
    var us := ts + [u];
    assert us[|ts|] == u;
    forall i | 0 <= i < |ts|
      ensures us[i] == ts[i]
    {
    }
  }

  lemma RootHeader(w: World, ts: seq<Tree>, i: nat)
    requires TreesOk(w, ts) && i < |ts|
    ensures ts[i].root.header == w.headerOf(ts[i].root.hash)
  {
  }

  lemma InUnion(h: Hash, a: set<Hash>, b: set<Hash>)
    requires h in a
    ensures h in a + b
  {
  }

  lemma PendingTrees(w: World, ts: seq<Tree>, n: Hash)
    requires Pending(w, ts, n)
    ensures TreesOk(w, ts)
  {
  }

  lemma OneOrDisjoint(w: World, ts: seq<Tree>, k: nat, i: nat)
    requires TreesOk(w, ts) && k < |ts| && i < |ts|
    ensures ts[k].Wf(w) && ts[i].Wf(w) && (k == i || ts[i].Blocks() !! ts[k].Blocks())
  {
  }

  /** Dropping a well placed orphan root leaves the badly placed ones. */
  lemma AbsorbBadRoot(w: World, ts: seq<Tree>, k: nat, i: nat, u: Tree, n: Hash)
    requires k < |ts| && i < |ts| && k != i && u.root == ts[k].root
    requires w.IsParent(n, ts[i].root.hash)
    ensures BadRoot(w, SwapRemove(ts[k := u], i), n) <==> BadRoot(w, ts, n)
  {
    var us := SwapRemove(ts[k := u], i);
    if BadRoot(w, ts, n) {
      var j :| 0 <= j < |ts| && w.Prev(ts[j].root.hash) == n && !w.IsParent(n, ts[j].root.hash);
      var j' := if j == |ts| - 1 then i else j;
      assert us[j'].root == ts[j].root;
    }
  }

  lemma AbsorbKeepsRoots(w: World, ts: seq<Tree>, k: nat, i: nat, u: Tree, n: Hash)
    requires k < |ts| && i < |ts| && k != i && u.root == ts[k].root
    requires Passed(w, ts, i, n)
    ensures Passed(w, SwapRemove(ts[k := u], i), i, n)
  {
  }

  // ----- pruning -----

  /** The blocks of trees whose root is not far behind. */
  ghost function Recent(w: World, s: set<Hash>, mainChainHeight: nat, maturity: nat): set<Hash> {
    set h | h in s && w.Height(RootOf(w, s, h)) + maturity >= mainChainHeight
  }

  /** The first `i` trees stay; what was dropped was far behind. */
  ghost predicate PruneProgress(w: World, all: set<Hash>, ts: seq<Tree>, i: nat, mainChainHeight: nat, maturity: nat) {
    && i <= |ts|
    && (forall k :: 0 <= k < i ==> w.Height(ts[k].root.hash) + maturity >= mainChainHeight)
    && ForestBlocks(ts) <= all
    && (forall h :: h in ForestBlocks(ts) ==> RootOf(w, ForestBlocks(ts), h) == RootOf(w, all, h))
    && (forall h :: h in all && h !in ForestBlocks(ts) ==> w.Height(RootOf(w, all, h)) + maturity < mainChainHeight)
  }

  lemma PruneStep(w: World, all: set<Hash>, ts: seq<Tree>, i: nat, mainChainHeight: nat, maturity: nat)
    requires ForestWf(w, ts) && i < |ts|
    requires PruneProgress(w, all, ts, i, mainChainHeight, maturity)
    ensures ts[i].root.header == w.headerOf(ts[i].root.hash)
    ensures if w.Height(ts[i].root.hash) + maturity < mainChainHeight
            then PruneProgress(w, all, SwapRemove(ts, i), i, mainChainHeight, maturity)
            else PruneProgress(w, all, ts, i + 1, mainChainHeight, maturity)
  {
    var r := ts[i].root.hash;
    if w.Height(r) + maturity < mainChainHeight {
      var us := SwapRemove(ts, i);
      var s, s' := ForestBlocks(ts), ForestBlocks(us);
      DropKeepsForest(w, ts, i);
      hide ForestBlocks, Tree.Blocks, Tree.Wf, ForestWf;
      forall h | h in s'
        ensures RootOf(w, s', h) == RootOf(w, all, h)
      {
        TreesDroppedKeepRoots(w, s, s', r, h);
      }
    }
  }

  /** Dropping one tree keeps the roots of all others. */
  lemma TreesDroppedKeepRoots(w: World, s: set<Hash>, t: set<Hash>, r: Hash, h: Hash)
    requires t == s - TreeOf(w, s, r) && h in t
    ensures RootOf(w, t, h) == RootOf(w, s, h) && WorkTo(w, t, h) == WorkTo(w, s, h)
  {
    BranchIsChain(w, s, h);
    RootIsUnattached(w, s, h);
    BranchUnchanged(w, s, t, h);
  }

  lemma PruneDone(w: World, all: set<Hash>, ts: seq<Tree>, mainChainHeight: nat, maturity: nat)
    requires ForestWf(w, ts)
    requires PruneProgress(w, all, ts, |ts|, mainChainHeight, maturity)
    ensures ForestBlocks(ts) == Recent(w, all, mainChainHeight, maturity)
  {
    var s := ForestBlocks(ts);
    forall h | h in s
      ensures w.Height(RootOf(w, all, h)) + maturity >= mainChainHeight
    {
      var i :| 0 <= i < |ts| && h in ts[i].Blocks();
      TreeIsComponent(w, ts, i);
    }
  }

  lemma NoSuchTree(w: World, ts: seq<Tree>, root: Hash)
    requires ForestWf(w, ts)
    requires forall k :: 0 <= k < |ts| ==> ts[k].root.hash != root
    ensures TreeOf(w, ForestBlocks(ts), root) == {}
  {
    var s := ForestBlocks(ts);
    RootsAreTreeRoots(w, ts);
    forall h | h in s
      ensures RootOf(w, s, h) != root
    {
      RootIsUnattached(w, s, h);
    }
  }
}

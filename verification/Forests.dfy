/** A forest of rooted trees as a value: disjointness, maximality of its trees,
    and the steps by which adding a block changes it. */
module Forests {
  import opened Headers
  import opened BlockSets
  import opened RootedTrees

  ghost function ForestBlocks(ts: seq<Tree>): set<Hash> {
    set i, h | 0 <= i < |ts| && h in ts[i].Blocks() :: h
  }

  /** Trees are disjoint and no root has its parent in the forest. */
  ghost predicate ForestWf(w: World, ts: seq<Tree>) {
    && (forall i :: 0 <= i < |ts| ==> ts[i].Wf(w))
    && (forall i, j :: 0 <= i < j < |ts| ==> ts[i].Blocks() !! ts[j].Blocks())
    && (forall i :: 0 <= i < |ts| ==> !Attached(w, ForestBlocks(ts), ts[i].root.hash))
  }

  /** Each tree holds a maximal connected set of the forest's blocks: exactly
      those whose branch starts at its root. */
  lemma TreeIsComponent(w: World, ts: seq<Tree>, i: nat)
    requires ForestWf(w, ts) && i < |ts|
    ensures ts[i].Blocks() == TreeOf(w, ForestBlocks(ts), ts[i].root.hash)
    ensures forall h :: h in ts[i].Blocks() ==>
      ts[i].At(h).workSum == WorkTo(w, ForestBlocks(ts), h)
  {
    var s := ForestBlocks(ts);
    var r := ts[i].root.hash;
    forall h | h in ts[i].Blocks()
      ensures h in s && RootOf(w, s, h) == r && WorkTo(w, s, h) == ts[i].At(h).workSum
    {
      TreeAgrees(w, ts[i], s, h);
    }
    forall h | h in TreeOf(w, s, r)
      ensures h in ts[i].Blocks()
    {
      var j :| 0 <= j < |ts| && h in ts[j].Blocks();
      TreeAgrees(w, ts[j], s, h);
      assert r in ts[i].Blocks() && r in ts[j].Blocks();
    }
  }

  lemma RootsAreTreeRoots(w: World, ts: seq<Tree>)
    requires ForestWf(w, ts)
    ensures Roots(w, ForestBlocks(ts)) == set i | 0 <= i < |ts| :: ts[i].root.hash
  {
    var s := ForestBlocks(ts);
    forall h | h in Roots(w, s)
      ensures exists i :: 0 <= i < |ts| && ts[i].root.hash == h
    {
      var i :| 0 <= i < |ts| && h in ts[i].Blocks();
      assert h == ts[i].root.hash || ts[i].ChildOk(w, h);
    }
    forall i | 0 <= i < |ts|
      ensures ts[i].root.hash in Roots(w, s)
    {
      assert ts[i].root.hash in ts[i].Blocks();
    }
  }

  /** Arrival order does not matter: two well-formed forests over the same
      blocks hold the same trees, whatever order they were built in. */
  lemma ForestDetermined(w: World, ts: seq<Tree>, us: seq<Tree>)
    requires ForestWf(w, ts) && ForestWf(w, us) && ForestBlocks(ts) == ForestBlocks(us)
    ensures |ts| == |us|
    ensures forall i :: 0 <= i < |ts| ==>
      exists j :: 0 <= j < |us| && ts[i].(bestChain := []) == us[j].(bestChain := [])
  {
    forall i | 0 <= i < |ts|
      ensures exists j :: 0 <= j < |us| && ts[i].(bestChain := []) == us[j].(bestChain := [])
    {
      RootsAreTreeRoots(w, ts);
      RootsAreTreeRoots(w, us);
      assert ts[i].root.hash in Roots(w, ForestBlocks(ts));
      var j :| 0 <= j < |us| && us[j].root.hash == ts[i].root.hash;
      TreeIsComponent(w, ts, i);
      TreeIsComponent(w, us, j);
      TreeDetermined(w, ts[i], us[j]);
    }
    CountRoots(w, ts);
    CountRoots(w, us);
  }

  lemma CountRoots(w: World, ts: seq<Tree>)
    requires ForestWf(w, ts)
    ensures |ts| == |Roots(w, ForestBlocks(ts))|
  {
    RootsAreTreeRoots(w, ts);
    var rs := seq(|ts|, i requires 0 <= i < |ts| => ts[i].root.hash);
    forall i, j | 0 <= i < j < |rs|
      ensures rs[i] != rs[j]
    {
      assert rs[i] in ts[i].Blocks() && rs[j] in ts[j].Blocks();
    }
    CountDistinct(rs);
    assert Roots(w, ForestBlocks(ts)) == Elements(rs) by {
      forall i | 0 <= i < |ts|
        ensures ts[i].root.hash in rs
      {
        assert rs[i] in rs;
      }
    }
  }

  ghost function Elements(c: seq<Hash>): set<Hash> {
    set x | x in c
  }

  lemma {:induction false} CountDistinct(rs: seq<Hash>)
    requires forall i, j :: 0 <= i < j < |rs| ==> rs[i] != rs[j]
    ensures |Elements(rs)| == |rs|
  {
    if rs == [] {
      assert Elements(rs) == {};
    } else {
      var last := rs[|rs| - 1];
      var rs' := rs[..|rs| - 1];
      CountDistinct(rs');
      assert rs == rs' + [last];
      assert Elements(rs) == Elements(rs') + {last} && last !in Elements(rs');
    }
  }

  // ----- adding one block -----

  ghost predicate TreesOk(w: World, ts: seq<Tree>) {
    && (forall i :: 0 <= i < |ts| ==> ts[i].Wf(w))
    && (forall i, j :: 0 <= i < j < |ts| ==> ts[i].Blocks() !! ts[j].Blocks())
  }

  /** While `n` is being added, the only parent a root may have in the forest
      is `n` itself. */
  ghost predicate Pending(w: World, ts: seq<Tree>, n: Hash) {
    && TreesOk(w, ts)
    && (forall i :: 0 <= i < |ts| && Attached(w, ForestBlocks(ts), ts[i].root.hash)
          ==> w.Prev(ts[i].root.hash) == n)
  }

  lemma BlocksOfUpdate(ts: seq<Tree>, k: nat, u: Tree, b: set<Hash>)
    requires k < |ts| && u.Blocks() == ts[k].Blocks() + b
    ensures ForestBlocks(ts[k := u]) == ForestBlocks(ts) + b
  {
    var us := ts[k := u];
    forall h | h in ForestBlocks(ts) + b
      ensures h in ForestBlocks(us)
    {
      if h in ForestBlocks(ts) {
        var i :| 0 <= i < |ts| && h in ts[i].Blocks();
        assert h in us[i].Blocks();
      } else {
        assert h in us[k].Blocks();
      }
    }
    forall h | h in ForestBlocks(us)
      ensures h in ForestBlocks(ts) + b
    {
      var i :| 0 <= i < |us| && h in us[i].Blocks();
      assert i == k || h in ts[i].Blocks();
    }
  }

  lemma BlocksOfAppend(ts: seq<Tree>, u: Tree)
    ensures ForestBlocks(ts + [u]) == ForestBlocks(ts) + u.Blocks()
  {
    var us := ts + [u];
    forall h | h in ForestBlocks(ts) + u.Blocks()
      ensures h in ForestBlocks(us)
    {
      if h in ForestBlocks(ts) {
        var i :| 0 <= i < |ts| && h in ts[i].Blocks();
        assert h in us[i].Blocks();
      } else {
        assert h in us[|ts|].Blocks();
      }
    }
  }

  /** Growing tree `k` by fresh blocks keeps the trees disjoint. */
  lemma UpdateKeepsTrees(w: World, ts: seq<Tree>, k: nat, u: Tree, b: set<Hash>)
    requires TreesOk(w, ts) && k < |ts| && u.Wf(w)
    requires u.Blocks() == ts[k].Blocks() + b && b !! ForestBlocks(ts)
    ensures TreesOk(w, ts[k := u])
  {
    forall i | 0 <= i < |ts|
      ensures b !! ts[i].Blocks()
    {
      assert ts[i].Blocks() <= ForestBlocks(ts);
    }
  }

  lemma AttachPending(w: World, ts: seq<Tree>, k: nat, n: Hash, u: Tree)
    requires ForestWf(w, ts) && k < |ts| && n !in ForestBlocks(ts)
    requires u.Wf(w) && u.root == ts[k].root && u.Blocks() == ts[k].Blocks() + {n}
    ensures Pending(w, ts[k := u], n) && ForestBlocks(ts[k := u]) == ForestBlocks(ts) + {n}
  {
    BlocksOfUpdate(ts, k, u, {n});
    UpdateKeepsTrees(w, ts, k, u, {n});
  }

  lemma AppendPending(w: World, ts: seq<Tree>, u: Tree)
    requires ForestWf(w, ts) && u.Wf(w)
    requires u.Blocks() == {u.root.hash} && u.root.hash !in ForestBlocks(ts)
    requires !Attached(w, ForestBlocks(ts), u.root.hash)
    ensures Pending(w, ts + [u], u.root.hash)
    ensures ForestBlocks(ts + [u]) == ForestBlocks(ts) + {u.root.hash}
  {
    BlocksOfAppend(ts, u);
    var us := ts + [u];
    forall i, j | 0 <= i < j < |us|
      ensures us[i].Blocks() !! us[j].Blocks()
    {
      if j == |ts| {
        assert us[i].Blocks() <= ForestBlocks(ts);
      }
    }
  }

  /** Dropping an element by moving the last one into its place. */
  function SwapRemove<T>(s: seq<T>, i: nat): (r: seq<T>)
    requires i < |s|
    ensures |r| == |s| - 1
    ensures forall k :: 0 <= k < |r| ==> r[k] == if k == i then s[|s| - 1] else s[k]
  {
    s[i := s[|s| - 1]][..|s| - 1]
  }

  lemma BlocksOfSwapRemove(ts: seq<Tree>, i: nat)
    requires i < |ts|
    requires forall k, j :: 0 <= k < j < |ts| ==> ts[k].Blocks() !! ts[j].Blocks()
    ensures ForestBlocks(SwapRemove(ts, i)) == ForestBlocks(ts) - ts[i].Blocks()
  {
    var us := SwapRemove(ts, i);
    forall h | h in ForestBlocks(ts) - ts[i].Blocks()
      ensures h in ForestBlocks(us)
    {
      var k :| 0 <= k < |ts| && h in ts[k].Blocks();
      if k == |ts| - 1 {
        assert h in us[i].Blocks();
      } else {
        assert h in us[k].Blocks();
      }
    }
    forall h | h in ForestBlocks(us)
      ensures h in ForestBlocks(ts) - ts[i].Blocks()
    {
      var k :| 0 <= k < |us| && h in us[k].Blocks();
      var k' := if k == i then |ts| - 1 else k;
      assert h in ts[k'].Blocks();
    }
  }

  lemma SwapRemoveKeepsTrees(w: World, ts: seq<Tree>, i: nat)
    requires TreesOk(w, ts) && i < |ts|
    ensures TreesOk(w, SwapRemove(ts, i))
  {
  }

  /** Tree `k` absorbs all blocks of tree `i`, which is then dropped. */
  lemma AbsorbPending(w: World, ts: seq<Tree>, k: nat, i: nat, u: Tree, n: Hash)
    requires Pending(w, ts, n) && k < |ts| && i < |ts| && k != i
    requires u.Wf(w) && u.root == ts[k].root && u.Blocks() == ts[k].Blocks() + ts[i].Blocks()
    ensures Pending(w, SwapRemove(ts[k := u], i), n)
    ensures ForestBlocks(SwapRemove(ts[k := u], i)) == ForestBlocks(ts)
  {
    // drop first, then grow: the same trees in the same order
    hide Tree.Wf, Tree.Blocks;
    var us := SwapRemove(ts, i);
    var k' := if k == |ts| - 1 then i else k;
    SwapRemoveKeepsTrees(w, ts, i);
    BlocksOfSwapRemove(ts, i);
    BlocksOfUpdate(us, k', u, ts[i].Blocks());
    UpdateKeepsTrees(w, us, k', u, ts[i].Blocks());
    var vs := us[k' := u];
    assert SwapRemove(ts[k := u], i) == vs;
    assert ts[i].Blocks() <= ForestBlocks(ts);
    hide ForestBlocks, TreesOk;
    forall j | 0 <= j < |vs| && Attached(w, ForestBlocks(vs), vs[j].root.hash)
      ensures w.Prev(vs[j].root.hash) == n
    {
      var j' := if j == k' then k else if j == i then |ts| - 1 else j;
      assert vs[j].root == ts[j'].root;
    }
  }

  /** No tree is left whose root names `n`: the forest is well formed. */
  lemma PendingDone(w: World, ts: seq<Tree>, n: Hash)
    requires Pending(w, ts, n)
    requires forall i :: 0 <= i < |ts| ==> w.Prev(ts[i].root.hash) != n
    ensures ForestWf(w, ts)
  {
  }

  /** A root that names the new block `n` as its parent, or `n` itself doing so,
      at a height other than the one above `n`. */
  ghost predicate Misplaced(w: World, ts: seq<Tree>, n: Hash) {
    || w.Prev(n) == n
    || exists i :: 0 <= i < |ts| && w.Prev(ts[i].root.hash) == n && !w.IsParent(n, ts[i].root.hash)
  }

  /** Linked headers are never misplaced. */
  lemma LinkedNeverMisplaced(w: World, ts: seq<Tree>, n: Hash)
    requires w.Linked() && ForestBlocks(ts) + {n} <= w.known
    ensures !Misplaced(w, ts, n)
  {
    forall i | 0 <= i < |ts|
      ensures w.Prev(ts[i].root.hash) == n ==> w.IsParent(n, ts[i].root.hash)
    {
      assert ts[i].root.hash in ts[i].Blocks();
      assert ts[i].root.hash in ForestBlocks(ts);
    }
  }

  /** Without that assumption a block can be misplaced: here block 2 arrives
      after block 1, which names it but sits four heights above it. */
  lemma MisplacedExample() returns (w: World, ts: seq<Tree>, n: Hash)
    ensures ForestWf(w, ts) && n !in ForestBlocks(ts) && Misplaced(w, ts, n)
  {
    var headerOf := (h: Hash) =>
      if h == 1 then Header(2, 7, 0, 0, 0, 0, 0) else Header(9, 3, 0, 0, 0, 0, 0);
    w := World(headerOf, bits => 1, {1, 2});
    n := 2;
    var t := Tree(Node(1, headerOf(1), NoParent, 1), map[], map[], []);
    ts := [t];
    assert t.Wf(w) && t.Blocks() == {1};
    forall h | h in ForestBlocks(ts)
      ensures h == 1
    {
      var i :| 0 <= i < |ts| && h in ts[i].Blocks();
    }
    assert w.Prev(ts[0].root.hash) == n && !w.IsParent(n, ts[0].root.hash);
  }

  // ----- dropping trees -----

  lemma DropKeepsForest(w: World, ts: seq<Tree>, i: nat)
    requires ForestWf(w, ts) && i < |ts|
    ensures ForestWf(w, SwapRemove(ts, i))
    ensures ForestBlocks(SwapRemove(ts, i)) == ForestBlocks(ts) - TreeOf(w, ForestBlocks(ts), ts[i].root.hash)
  {
    hide Tree.Wf, Tree.Blocks;
    var us := SwapRemove(ts, i);
    SwapRemoveKeepsTrees(w, ts, i);
    BlocksOfSwapRemove(ts, i);
    TreeIsComponent(w, ts, i);
    hide ForestBlocks, TreeOf;
    forall j | 0 <= j < |us|
      ensures !Attached(w, ForestBlocks(us), us[j].root.hash)
    {
      var j' := if j == i then |ts| - 1 else j;
      assert !Attached(w, ForestBlocks(ts), ts[j'].root.hash);
    }
  }
}

/** wallet/sidechains.go: one rooted tree of sidechain or orphan blocks. */
module SidechainTrees {
  import opened Headers
  import opened BlockSets
  import opened RootedTrees

  class RootedTree {
    var root: Node
    var children: map<Hash, Node>
    var tips: map<Hash, Node>
    var bestChain: seq<Node>

    ghost function Value(): Tree
      reads this
    {
      Tree(root, children, tips, bestChain)
    }

    constructor (w: World, n: Node)
      requires n.header == w.headerOf(n.hash) && n.parent == NoParent
      ensures Value().Wf(w) && Value().Blocks() == {n.hash} && root.hash == n.hash
      ensures bestChain == []
    {
      root := n.(workSum := w.calcWork(n.header.bits));
      children := map[];
      tips := map[];
      bestChain := [];
    }

    predicate DuplicateNode(n: Node)
      reads this
      ensures DuplicateNode(n) <==> n.hash in Value().Blocks()
    {
      n.hash == root.hash || n.hash in children
    }

    /** Attaches `n` below its parent, if the tree has the parent. */
    method MaybeAttachNode(w: World, n: Node) returns (attached: bool)
      requires Value().Structured(w)
      requires n.header == w.headerOf(n.hash) && !DuplicateNode(n)
      modifies this
      ensures attached <==> Attached(w, old(Value().Blocks()), n.hash)
      ensures Value() == if attached then Attach(w, old(Value()), w.Prev(n.hash), n) else old(Value())
    {
      ghost var t := Value();
      RootFacts(w, t);
      if n.header.prev in t.Blocks() {
        NodeHeader(w, t, n.header.prev);
      }
      hide Tree.Structured;
      if root.hash == n.header.prev && n.header.height == root.header.height + 1 {
        AttachIs(w, t, n, root);
        hide Attach, Tree.Blocks, Tree.At;
        AddChild(w, root, n);
        return true;
      }
      if n.header.prev in children {
        var parent := children[n.header.prev];
        if n.header.height == parent.header.height + 1 {
          AttachIs(w, t, n, parent);
          hide Attach, Tree.Blocks, Tree.At;
          AddChild(w, parent, n);
          tips := tips - {parent.hash};
          return true;
        }
      }
      return false;
    }

    /** Records `n` as a child and a tip, and forgets the memoized chain. */
    method AddChild(w: World, parent: Node, n: Node)
      modifies this
      ensures var n' := n.(parent := ParentNode(parent), workSum := parent.workSum + w.calcWork(n.header.bits));
              Value() == Tree(old(root), old(children)[n.hash := n'], old(tips)[n.hash := n'], [])
    {
      var n' := n.(parent := ParentNode(parent), workSum := parent.workSum + w.calcWork(n.header.bits));
      children := children[n.hash := n'];
      tips := tips[n.hash := n'];
      bestChain := [];
    }

    /** Returns a heaviest branch, starting with the root.  Which one is chosen
        among equals is left open, as is the order in which tips are visited. */
    method Best(w: World) returns (chain: seq<Node>, work: nat)
      requires Value().Wf(w)
      modifies this`bestChain
      ensures Value() == old(Value()).(bestChain := chain)
      ensures Value().IsBest(w, chain) && work == chain[|chain| - 1].workSum
    {
      ghost var t := Value();
      if |bestChain| != 0 {
        return bestChain, bestChain[|bestChain| - 1].workSum;
      }
      var best := BestTip(w);
      chain := ChainTo(w, best);
      hide Tree.Structured, Tree.Wf;
      work := best.workSum;
      bestChain := chain;
      assert Value() == t.(bestChain := chain);
      SameBest(w, t, Value(), chain);
    }

    /** The tip with the largest work sum; the root if there is no tip. */
    method BestTip(w: World) returns (best: Node)
      requires Value().Structured(w)
      ensures best.hash in Value().Blocks() && best == Value().At(best.hash)
      ensures if tips == map[] then best == root else best.hash in tips && best == tips[best.hash]
      ensures Value().Heaviest(best.workSum)
    {
      ghost var t := Value();
      TipsAreNodes(w, t);
      best := root;
      var found := false;
      var rest := tips.Keys;
      while rest != {}
        invariant rest <= tips.Keys
        invariant found <==> rest != tips.Keys
        invariant found ==> best.hash in tips && best == tips[best.hash]
        invariant forall h :: h in tips && h !in rest ==> tips[h].workSum <= best.workSum
        decreases |rest|
      {
        hide Tree.Structured;
        var h :| h in rest;
        rest := rest - {h};
        if !found || best.workSum < tips[h].workSum {
          best := tips[h];
        }
        found := true;
      }
      if found {
        BestTipIsBestNode(w, t, best.hash);
      } else {
        NoTipsMeansRootOnly(w, t);
        assert tips.Keys == {};
        best := root;
      }
    }

    /** The branch to a node, filled in from its end by following parents. */
    method ChainTo(w: World, best: Node) returns (chain: seq<Node>)
      requires Value().Structured(w)
      requires best.hash in Value().Blocks() && best == Value().At(best.hash)
      ensures Value().IsBranch(w, chain) && chain[|chain| - 1] == best
    {
      ghost var t := Value();
      TreeHeights(w, t, best.hash);
      NodeHeader(w, t, best.hash);
      NodeHeader(w, t, root.hash);
      var size := best.header.height - root.header.height + 1;
      chain := FillChain(w, t, best, size);
    }
  }

  /** Fills a slice from its end with a node and its ancestors. */
  method FillChain(w: World, ghost t: Tree, best: Node, size: nat) returns (chain: seq<Node>)
    requires t.Structured(w) && best.hash in t.Blocks() && best == t.At(best.hash)
    requires size > 0 && w.Height(best.hash) == w.Height(t.root.hash) + size - 1
    ensures t.IsBranch(w, chain) && chain[|chain| - 1] == best
  {
    hide Tree.Structured, Tree.Blocks, Tree.At, BranchEnd, Tree.IsBranch;
    var out := new Node[size](_ => best);
    var n := best;
    var j := size - 1;
    ghost var run := [best];
    LastOfBranch(w, t, best);
    while j > 0
      invariant 0 <= j < size
      invariant n.hash in t.Blocks() && n == t.At(n.hash) && w.Height(n.hash) == w.Height(t.root.hash) + j
      invariant |run| == size - j && run[0] == n && run[|run| - 1] == best && BranchEnd(w, t, run)
      invariant forall i :: j < i < size ==> out[i] == run[i - j]
    {
      ParentStep(w, t, run);
      out[j] := n;
      n := n.parent.node;
      run := [n] + run;
      j := j - 1;
    }
    out[0] := n;
    chain := out[..];
    SameNodes(chain, run);
    BranchFrom(w, t, run);
  }

  lemma SameNodes(c: seq<Node>, d: seq<Node>)
    requires |c| == |d| && forall i :: 0 <= i < |c| ==> c[i] == d[i]
    ensures c == d
  {
  }

  /** A parent-linked run of the tree's nodes. */
  ghost predicate BranchEnd(w: World, t: Tree, c: seq<Node>) {
    && (forall i :: 0 <= i < |c| ==> c[i].hash in t.Blocks() && c[i] == t.At(c[i].hash))
    && (forall i :: 0 < i < |c| ==> w.IsParent(c[i - 1].hash, c[i].hash))
  }

  lemma LastOfBranch(w: World, t: Tree, best: Node)
    requires best.hash in t.Blocks() && best == t.At(best.hash)
    ensures BranchEnd(w, t, [best])
  {
  }

  /** A parent-linked run that starts at the root's height is a branch. */
  lemma BranchFrom(w: World, t: Tree, run: seq<Node>)
    requires t.Structured(w) && run != [] && BranchEnd(w, t, run) && w.Height(run[0].hash) == w.Height(t.root.hash)
    ensures t.IsBranch(w, run)
  {
    LowestIsRoot(w, t, run[0].hash);
  }

  /** A run above the root extends to the parent of its first node. */
  lemma ParentStep(w: World, t: Tree, run: seq<Node>)
    requires t.Structured(w) && run != [] && BranchEnd(w, t, run)
    requires w.Height(run[0].hash) > w.Height(t.root.hash)
    ensures run[0].parent.ParentNode?
    ensures var p := run[0].parent.node;
            && p.hash in t.Blocks() && p == t.At(p.hash)
            && w.Height(p.hash) == w.Height(run[0].hash) - 1
            && BranchEnd(w, t, [p] + run)
  {
    assert t.ChildOk(w, run[0].hash);
    NodeHeader(w, t, w.Prev(run[0].hash));
    var p := run[0].parent.node;
    var d := [p] + run;
    forall i | 0 < i < |d|
      ensures w.IsParent(d[i - 1].hash, d[i].hash)
    {
      if i > 1 {
        assert d[i] == run[i - 1] && d[i - 1] == run[i - 2];
      }
    }
  }

  lemma SameBest(w: World, t: Tree, u: Tree, c: seq<Node>)
    requires u == t.(bestChain := c) && t.IsBest(w, c)
    ensures u.IsBest(w, c)
  {
    assert forall h :: h in t.Blocks() ==> u.At(h) == t.At(h);
  }

  lemma TipsAreNodes(w: World, t: Tree)
    requires t.Structured(w)
    ensures forall h :: h in t.tips ==> h in t.Blocks() && t.tips[h] == t.At(h) && t.tips[h].hash == h
  {
    forall h | h in t.tips
      ensures h in t.Blocks() && t.tips[h] == t.At(h) && t.tips[h].hash == h
    {
      assert t.ChildOk(w, h);
    }
  }

  lemma RootFacts(w: World, t: Tree)
    requires t.Structured(w)
    ensures t.root.header == w.headerOf(t.root.hash)
    ensures t.root.hash !in t.tips && t.root.hash !in t.children
  {
  }

  /** Attaching below a node, field by field; a root is no tip. */
  lemma AttachIs(w: World, t: Tree, n: Node, parent: Node)
    requires n.header == w.headerOf(n.hash) && n.header.prev in t.Blocks() && t.At(n.header.prev) == parent
    requires parent.hash == n.header.prev && t.root.hash !in t.tips && n.hash !in t.Blocks()
    ensures var n' := n.(parent := ParentNode(parent), workSum := parent.workSum + w.calcWork(n.header.bits));
            var attached := Attach(w, t, w.Prev(n.hash), n);
            && attached == Tree(t.root, t.children[n.hash := n'], t.tips[n.hash := n'] - {parent.hash}, [])
            && (parent.hash == t.root.hash ==> attached.tips == t.tips[n.hash := n'])
  {
    var n' := n.(parent := ParentNode(parent), workSum := parent.workSum + w.calcWork(n.header.bits));
    if parent.hash == t.root.hash {
      assert t.tips[n.hash := n'] - {parent.hash} == t.tips[n.hash := n'];
    }
  }

  lemma NodeHeader(w: World, t: Tree, h: Hash)
    requires t.Structured(w) && h in t.Blocks()
    ensures t.At(h).hash == h && t.At(h).header == w.headerOf(h)
  {
    assert h == t.root.hash || t.ChildOk(w, h);
  }

  lemma LowestIsRoot(w: World, t: Tree, h: Hash)
    requires t.Structured(w) && h in t.Blocks() && w.Height(h) == w.Height(t.root.hash)
    ensures h == t.root.hash
  {
    TreeHeights(w, t, h);
  }

  lemma NoTipsMeansRootOnly(w: World, t: Tree)
    requires t.Structured(w) && t.tips.Keys == {}
    ensures t.Blocks() == {t.root.hash}
  {
    if t.children.Keys != {} {
      var tip := TipAbove(w, t, t.root.hash);
    }
  }

  /** A tip heaviest among the tips is heaviest among all nodes. */
  lemma BestTipIsBestNode(w: World, t: Tree, best: Hash)
    requires t.Structured(w) && best in t.tips
    requires forall h :: h in t.tips ==> t.tips[h].workSum <= t.tips[best].workSum
    ensures t.Heaviest(t.tips[best].workSum)
  {
    forall h | h in t.Blocks()
      ensures t.At(h).workSum <= t.tips[best].workSum
    {
      assert best in t.children;
      var tip := TipAbove(w, t, h);
    }
  }

  // ----- merging an orphan tree -----

  /** All nodes of a tree, each once, lowest first. */
  ghost predicate NodesByHeight(w: World, t: Tree, nodes: seq<Node>) {
    && |nodes| > 0 && nodes[0] == t.root
    && (forall i :: 0 <= i < |nodes| ==> nodes[i].hash in t.Blocks() && nodes[i] == t.At(nodes[i].hash))
    && (forall i, j :: 0 <= i < j < |nodes| ==>
          nodes[i].hash != nodes[j].hash && w.Height(nodes[i].hash) <= w.Height(nodes[j].hash))
    && (forall h :: h in t.Blocks() ==> exists i :: 0 <= i < |nodes| && nodes[i].hash == h)
  }

  method LowestNode(w: World, t: Tree, rest: set<Hash>) returns (low: Hash)
    requires t.Structured(w) && rest <= t.children.Keys && rest != {}
    ensures low in rest && forall h :: h in rest ==> w.Height(low) <= w.Height(h)
  {
    forall h | h in rest
      ensures t.children[h].header.height == w.Height(h)
    {
      NodeHeader(w, t, h);
      assert t.ChildOk(w, h);
    }
    hide Tree.Structured;
    low :| low in rest;
    var todo := rest - {low};
    while todo != {}
      invariant todo <= rest && low in rest
      invariant forall h :: h in rest && h !in todo ==> w.Height(low) <= w.Height(h)
      decreases |todo|
    {
      var h :| h in todo;
      if t.children[h].header.height < t.children[low].header.height {
        low := h;
      }
      todo := todo - {h};
    }
  }

  /** `nodes` holds everything but `rest`, sorted, and `rest` sorts after it. */
  ghost predicate SortedPrefix(w: World, t: Tree, nodes: seq<Node>, rest: set<Hash>) {
    && |nodes| > 0 && nodes[0] == t.root
    && (forall i :: 0 <= i < |nodes| ==>
          && nodes[i].hash in t.Blocks() && nodes[i] == t.At(nodes[i].hash)
          && nodes[i].hash !in rest
          && (forall h :: h in rest ==> w.Height(nodes[i].hash) <= w.Height(h)))
    && (forall i, j :: 0 <= i < j < |nodes| ==>
          nodes[i].hash != nodes[j].hash && w.Height(nodes[i].hash) <= w.Height(nodes[j].hash))
    && (forall h :: h in t.Blocks() ==> h in rest || exists i :: 0 <= i < |nodes| && nodes[i].hash == h)
  }

  lemma SortedStart(w: World, t: Tree)
    requires t.Structured(w)
    ensures SortedPrefix(w, t, [t.root], t.children.Keys)
  {
    var nodes := [t.root];
    assert nodes[0].hash == t.root.hash;
    forall h | h in t.Blocks()
      ensures w.Height(h) >= w.Height(t.root.hash)
    {
      TreeHeights(w, t, h);
    }
  }

  lemma SortedStep(w: World, t: Tree, nodes: seq<Node>, rest: set<Hash>, low: Hash)
    requires SortedPrefix(w, t, nodes, rest) && rest <= t.children.Keys && low in rest
    requires t.children[low].hash == low && t.root.hash !in t.children
    requires forall h :: h in rest ==> w.Height(low) <= w.Height(h)
    ensures SortedPrefix(w, t, nodes + [t.children[low]], rest - {low})
  {
    var more := nodes + [t.children[low]];
    assert more[|nodes|].hash == low;
    forall h | h in t.Blocks()
      ensures h in rest - {low} || exists i :: 0 <= i < |more| && more[i].hash == h
    {
      if h !in rest {
        var i :| 0 <= i < |nodes| && nodes[i].hash == h;
        assert more[i].hash == h;
      }
    }
  }

  lemma SortedEnd(w: World, t: Tree, nodes: seq<Node>)
    requires SortedPrefix(w, t, nodes, {})
    ensures NodesByHeight(w, t, nodes)
  {
    forall h | h in t.Blocks()
      ensures exists i :: 0 <= i < |nodes| && nodes[i].hash == h
    {
    }
  }

  /** Dumps a tree to a slice and sorts it by height; equal heights may come
      out in any order. */
  method SortedNodes(w: World, t: Tree) returns (nodes: seq<Node>)
    requires t.Structured(w)
    ensures NodesByHeight(w, t, nodes)
  {
    nodes := [t.root];
    var rest := t.children.Keys;
    SortedStart(w, t);
    RootFacts(w, t);
    hide SortedPrefix, NodesByHeight;
    while rest != {}
      invariant rest <= t.children.Keys
      invariant SortedPrefix(w, t, nodes, rest)
      decreases |rest|
    {
      var low := LowestNode(w, t, rest);
      NodeHeader(w, t, low);
      hide Tree.Structured;
      SortedStep(w, t, nodes, rest, low);
      nodes := nodes + [t.children[low]];
      rest := rest - {low};
    }
    SortedEnd(w, t, nodes);
  }

  ghost function HashSet(nodes: seq<Node>): set<Hash> {
    set i | 0 <= i < |nodes| :: nodes[i].hash
  }

  /** Reattaches every node of an orphan tree whose root names `n`, a block of
      `nodeTree`.  It fails, and the caller panics, exactly when the orphan root
      does not sit one height above `n`. */
  method AttachAll(w: World, nodeTree: RootedTree, orphan: RootedTree, n: Hash) returns (ok: bool)
    requires nodeTree.Value().Wf(w) && orphan.Value().Wf(w)
    requires orphan == nodeTree || orphan.Value().Blocks() !! nodeTree.Value().Blocks()
    requires n in nodeTree.Value().Blocks() && w.Prev(orphan.root.hash) == n
    modifies nodeTree
    ensures ok <==> w.IsParent(n, old(orphan.root.hash))
    ensures ok ==> orphan != nodeTree && nodeTree.Value().Wf(w) && nodeTree.root == old(nodeTree.root)
    ensures ok ==> nodeTree.Value().Blocks() == old(nodeTree.Value().Blocks()) + old(orphan.Value().Blocks())
  {
    ghost var t := orphan.Value();
    if orphan == nodeTree {
      TreeHeights(w, t, n);
    }
    RootFacts(w, t);
    assert t.Structured(w) && nodeTree.Value().Structured(w);
    hide Tree.Structured, Tree.Blocks;
    var nodes := SortedNodes(w, Tree(orphan.root, orphan.children, orphan.tips, orphan.bestChain));
    ok := AttachNodes(w, nodeTree, nodes, t, n, orphan == nodeTree);
  }

  /** The nodes of an orphan tree, lowest first, join another tree, unless that is
      the orphan tree itself or the orphan root is badly placed. */
  method AttachNodes(w: World, nodeTree: RootedTree, nodes: seq<Node>, ghost t: Tree, ghost n: Hash, ghost same: bool)
    returns (ok: bool)
    requires nodeTree.Value().Wf(w) && t.Structured(w) && NodesByHeight(w, t, nodes)
    requires if same then t == nodeTree.Value() else t.Blocks() !! nodeTree.Value().Blocks()
    requires n in nodeTree.Value().Blocks() && w.Prev(t.root.hash) == n
    requires same ==> !w.IsParent(n, t.root.hash)
    modifies nodeTree
    ensures ok <==> w.IsParent(n, t.root.hash)
    ensures ok ==> nodeTree.Value().Wf(w) && nodeTree.root == old(nodeTree.root)
    ensures ok ==> nodeTree.Value().Blocks() == old(nodeTree.Value().Blocks()) + t.Blocks()
  {
    hide Tree.Structured, Tree.Blocks, Tree.Wf, NodesByHeight, HashSet;
    ghost var u := nodeTree.Value();
    var j := 0;
    FirstNode(w, t, nodes);
    while j < |nodes|
      invariant 0 <= j <= |nodes|
      invariant nodeTree.Value().Wf(w) && nodeTree.root == u.root
      invariant nodeTree.Value().Blocks() == u.Blocks() + HashSet(nodes[..j])
      invariant j > 0 ==> !same && w.IsParent(n, t.root.hash)
    {
      NextOrphan(w, t, u, nodes, j, n, same);
      HashSetStep(nodes, j);
      UnionAssociates(u.Blocks(), HashSet(nodes[..j]), {nodes[j].hash});
      var attached := AttachOne(w, nodeTree, nodes[j]);
      if !attached {
        return false;
      }
      j := j + 1;
    }
    AllHashes(w, t, nodes);
    ok := true;
  }

  lemma FirstNode(w: World, t: Tree, nodes: seq<Node>)
    requires t.Structured(w) && NodesByHeight(w, t, nodes)
    ensures |nodes| > 0 && HashSet(nodes[..0]) == {}
  {
    assert nodes[..0] == [];
  }

  /** Reattaches one node, unless it is a duplicate or its parent is missing. */
  method AttachOne(w: World, tree: RootedTree, n: Node) returns (attached: bool)
    requires tree.Value().Wf(w) && n.header == w.headerOf(n.hash)
    modifies tree
    ensures attached <==> n.hash !in old(tree.Value().Blocks()) && Attached(w, old(tree.Value().Blocks()), n.hash)
    ensures attached ==> tree.Value().Wf(w) && tree.root == old(tree.root)
    ensures attached ==> tree.Value().Blocks() == old(tree.Value().Blocks()) + {n.hash}
    ensures !attached ==> tree.Value() == old(tree.Value())
  {
    ghost var v := tree.Value();
    assert v.Structured(w);
    hide Tree.Structured, Tree.Blocks;
    var dup := tree.DuplicateNode(n);
    if dup {
      return false;
    }
    attached := tree.MaybeAttachNode(w, n);
    if attached {
      AttachKeepsStructure(w, v, n);
    }
  }

  lemma UnionAssociates(a: set<Hash>, b: set<Hash>, c: set<Hash>)
    ensures (a + b) + c == a + (b + c)
  {
  }

  lemma HashSetStep(nodes: seq<Node>, j: nat)
    requires j < |nodes|
    ensures HashSet(nodes[..j + 1]) == HashSet(nodes[..j]) + {nodes[j].hash}
  {
    var a := nodes[..j + 1];
    assert a[j] == nodes[j];
    forall h | h in HashSet(nodes[..j])
      ensures h in HashSet(a)
    {
      var i :| 0 <= i < j && nodes[..j][i].hash == h;
      assert a[i].hash == h;
    }
    forall h | h in HashSet(a)
      ensures h in HashSet(nodes[..j]) + {nodes[j].hash}
    {
      var i :| 0 <= i < |a| && a[i].hash == h;
      assert i < j ==> nodes[..j][i].hash == h;
    }
  }

  lemma AllHashes(w: World, t: Tree, nodes: seq<Node>)
    requires NodesByHeight(w, t, nodes)
    ensures HashSet(nodes[..|nodes|]) == t.Blocks()
  {
    assert nodes[..|nodes|] == nodes;
  }

  /** A node's parent comes before it in height order. */
  lemma ParentFirst(w: World, t: Tree, nodes: seq<Node>, j: nat)
    requires t.Structured(w) && NodesByHeight(w, t, nodes) && 0 < j < |nodes|
    ensures Attached(w, HashSet(nodes[..j]), nodes[j].hash)
  {
    var h := nodes[j].hash;
    assert h != nodes[0].hash;
    assert t.ChildOk(w, h);
    var i :| 0 <= i < |nodes| && nodes[i].hash == w.Prev(h);
    hide Tree.Structured, Tree.Blocks;
    assert w.Height(nodes[i].hash) < w.Height(nodes[j].hash);
    assert i < j;
    assert nodes[..j][i].hash == w.Prev(h);
  }

  lemma NotYetAttached(w: World, t: Tree, nodes: seq<Node>, j: nat)
    requires NodesByHeight(w, t, nodes) && j < |nodes|
    ensures nodes[j].hash in t.Blocks() && nodes[j].hash !in HashSet(nodes[..j])
    ensures nodes[j] == t.At(nodes[j].hash)
  {
    forall i | 0 <= i < j
      ensures nodes[..j][i].hash != nodes[j].hash
    {
    }
  }

  /** What decides the fate of the next reattached node. */
  lemma NextOrphan(w: World, t: Tree, u: Tree, nodes: seq<Node>, j: nat, n: Hash, same: bool)
    requires t.Structured(w) && NodesByHeight(w, t, nodes) && j < |nodes|
    requires if same then t == u && j == 0 else t.Blocks() !! u.Blocks()
    requires n in u.Blocks() && w.Prev(t.root.hash) == n
    requires j > 0 ==> w.IsParent(n, t.root.hash)
    ensures var b := u.Blocks() + HashSet(nodes[..j]);
            && (nodes[j].hash in b <==> same)
            && (Attached(w, b, nodes[j].hash) <==> w.IsParent(n, t.root.hash))
    ensures nodes[j].header == w.headerOf(nodes[j].hash)
  {
    NotYetAttached(w, t, nodes, j);
    NodeHeader(w, t, nodes[j].hash);
    if j == 0 {
      assert nodes[0] == t.root;
      assert HashSet(nodes[..0]) == {};
    } else {
      ParentFirst(w, t, nodes, j);
    }
  }
}

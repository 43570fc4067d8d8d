/** The value of one rooted sidechain tree and of a whole forest of them:
    well-formedness, the effect of attaching a node, and the proof that a
    well-formed forest is a function of the set of blocks it holds. */
module RootedTrees {
  import opened Headers
  import opened BlockSets

  /** A forest node.  `parent` and `workSum` are rewritten only while the node
      is (re)attached, so a node is modelled as a value. */
  datatype Node = Node(hash: Hash, header: Header, parent: Parent, workSum: nat)

  datatype Parent = NoParent | ParentNode(node: Node)

  function NewBlockNode(w: World, h: Hash): (n: Node)
    ensures w.headerOf(n.hash) == n.header && n.parent == NoParent
  {
    Node(h, w.headerOf(h), NoParent, 0)
  }

  function Hashes(c: seq<Node>): (r: seq<Hash>)
    ensures |r| == |c|
    ensures forall i :: 0 <= i < |c| ==> r[i] == c[i].hash
  {
    seq(|c|, i requires 0 <= i < |c| => c[i].hash)
  }

  datatype Tree = Tree(root: Node, children: map<Hash, Node>, tips: map<Hash, Node>, bestChain: seq<Node>) {

    ghost function Blocks(): set<Hash> {
      {root.hash} + children.Keys
    }

    ghost function At(h: Hash): Node
      requires h in Blocks()
    {
      if h == root.hash then root else children[h]
    }

    /** One child: its recorded header, parent link and work sum are right. */
    ghost predicate ChildOk(w: World, h: Hash)
      requires h in children
    {
      var p := w.Prev(h);
      && children[h].hash == h
      && children[h].header == w.headerOf(h)
      && p in Blocks()
      && w.IsParent(p, h)
      && children[h].parent == ParentNode(At(p))
      && children[h].workSum == At(p).workSum + w.Work(h)
    }

    ghost predicate Childless(w: World, h: Hash) {
      forall c :: c in children ==> w.Prev(c) != h
    }

    /** Everything except the memoized chain. */
    ghost predicate Structured(w: World) {
      && root.header == w.headerOf(root.hash)
      && root.parent == NoParent
      && root.workSum == w.Work(root.hash)
      && root.hash !in children
      && (forall h {:trigger ChildOk(w, h)} :: h in children ==> ChildOk(w, h))
      && (forall h {:trigger h in tips} :: h in tips <==> h in children && Childless(w, h))
      && (forall h :: h in tips ==> h in children && tips[h] == children[h])
    }

    /** `c` runs from the root through parent links, one height at a time. */
    ghost predicate IsBranch(w: World, c: seq<Node>) {
      && |c| > 0
      && c[0] == root
      && (forall i :: 0 <= i < |c| ==> c[i].hash in Blocks() && c[i] == At(c[i].hash))
      && (forall i :: 0 < i < |c| ==> w.IsParent(c[i - 1].hash, c[i].hash))
    }

    ghost predicate Heaviest(work: nat) {
      forall h :: h in Blocks() ==> At(h).workSum <= work
    }

    /** A branch whose work is maximal over all nodes of the tree. */
    ghost predicate IsBest(w: World, c: seq<Node>) {
      IsBranch(w, c) && Heaviest(c[|c| - 1].workSum)
    }

    ghost predicate Wf(w: World) {
      Structured(w) && (bestChain == [] || IsBest(w, bestChain))
    }
  }

  /** The value of a tree after a node is attached below `p`. */
  ghost function Attach(w: World, t: Tree, p: Hash, n: Node): Tree
    requires p in t.Blocks()
  {
    var n' := n.(parent := ParentNode(t.At(p)), workSum := t.At(p).workSum + w.Work(n.hash));
    Tree(t.root, t.children[n.hash := n'], t.tips[n.hash := n'] - {p}, [])
  }

  lemma AttachKeepsStructure(w: World, t: Tree, n: Node)
    requires t.Structured(w)
    requires n.hash !in t.Blocks() && n.header == w.headerOf(n.hash)
    requires Attached(w, t.Blocks(), n.hash)
    ensures Attach(w, t, w.Prev(n.hash), n).Wf(w)
    ensures Attach(w, t, w.Prev(n.hash), n).Blocks() == t.Blocks() + {n.hash}
  {
    var u := Attach(w, t, w.Prev(n.hash), n);
    forall h | h in u.children
      ensures u.ChildOk(w, h)
    {
      AttachKeepsChild(w, t, n, h);
    }
    forall h
      ensures h in u.tips <==> h in u.children && u.Childless(w, h)
    {
      AttachKeepsTips(w, t, n, h);
    }
  }

  lemma AttachKeepsChild(w: World, t: Tree, n: Node, h: Hash)
    requires t.Structured(w)
    requires n.hash !in t.Blocks() && n.header == w.headerOf(n.hash)
    requires Attached(w, t.Blocks(), n.hash)
    requires h in Attach(w, t, w.Prev(n.hash), n).children
    ensures Attach(w, t, w.Prev(n.hash), n).ChildOk(w, h)
  {
    if h != n.hash {
      assert t.ChildOk(w, h);
    }
  }

  lemma AttachKeepsTips(w: World, t: Tree, n: Node, h: Hash)
    requires t.Structured(w)
    requires n.hash !in t.Blocks()
    requires Attached(w, t.Blocks(), n.hash)
    ensures var u := Attach(w, t, w.Prev(n.hash), n);
            h in u.tips <==> h in u.children && u.Childless(w, h)
  {
    var u := Attach(w, t, w.Prev(n.hash), n);
    if h == n.hash {
      forall c | c in u.children
        ensures w.Prev(c) != h
      {
        assert c == n.hash || t.ChildOk(w, c);
      }
    } else {
      assert u.Childless(w, h) <==> t.Childless(w, h) && w.Prev(n.hash) != h;
    }
  }

  /** All nodes of a tree are at or above its root, the root lowest. */
  lemma {:induction false} TreeHeights(w: World, t: Tree, h: Hash)
    requires t.Structured(w) && h in t.Blocks()
    ensures w.Height(h) >= w.Height(t.root.hash)
    ensures h != t.root.hash ==> w.Height(h) > w.Height(t.root.hash)
    decreases w.Height(h)
  {
    if h != t.root.hash {
      assert t.ChildOk(w, h);
      TreeHeights(w, t, w.Prev(h));
    }
  }

  /** A tree's root and work sums are those the block set determines, in any
      set that contains the tree and gives its root no parent. */
  lemma {:induction false} TreeAgrees(w: World, t: Tree, s: set<Hash>, h: Hash)
    requires t.Structured(w) && h in t.Blocks()
    requires t.Blocks() <= s && !Attached(w, s, t.root.hash)
    ensures RootOf(w, s, h) == t.root.hash
    ensures WorkTo(w, s, h) == t.At(h).workSum
    decreases w.Height(h)
  {
    if h != t.root.hash {
      assert t.ChildOk(w, h);
      TreeAgrees(w, t, s, w.Prev(h));
    }
  }

  /** A childless node reachable from `h` carries at least as much work. */
  lemma {:induction false} TipAbove(w: World, t: Tree, h: Hash) returns (tip: Hash)
    requires t.Structured(w) && h in t.Blocks() && t.children.Keys != {}
    ensures tip in t.tips && t.At(h).workSum <= t.tips[tip].workSum
    decreases |set x | x in t.Blocks() && w.Height(x) > w.Height(h)|
  {
    if h in t.tips {
      return h;
    }
    var c: Hash;
    if h == t.root.hash && t.Childless(w, h) {
      // some child exists; walking down from it reaches a child of the root
      var x :| x in t.children;
      c := LowestAncestor(w, t, x);
    } else {
      assert !t.Childless(w, h);
      c :| c in t.children && w.Prev(c) == h;
    }
    assert t.ChildOk(w, c);
    ghost var above := set x | x in t.Blocks() && w.Height(x) > w.Height(h);
    ghost var above' := set x | x in t.Blocks() && w.Height(x) > w.Height(c);
    assert above' < above by {
      assert c in above && c !in above';
    }
    SmallerSet(above', above);
    tip := TipAbove(w, t, c);
  }

  lemma {:induction false} LowestAncestor(w: World, t: Tree, x: Hash) returns (c: Hash)
    requires t.Structured(w) && x in t.children
    ensures c in t.children && w.Prev(c) == t.root.hash
    decreases w.Height(x)
  {
    assert t.ChildOk(w, x);
    if w.Prev(x) == t.root.hash {
      c := x;
    } else {
      c := LowestAncestor(w, t, w.Prev(x));
    }
  }

  lemma SmallerSet(a: set<Hash>, b: set<Hash>)
    requires a < b
    ensures |a| < |b|
  {
    var d := b - a;
    assert b == a + d && a !! d;
    assert d != {};
    assert |b| == |a| + |d|;
  }

  /** The node a tree records for a block depends only on the block set. */
  lemma {:induction false} NodeDetermined(w: World, t: Tree, u: Tree, h: Hash)
    requires t.Structured(w) && u.Structured(w)
    requires t.root.hash == u.root.hash && t.Blocks() == u.Blocks() && h in t.Blocks()
    ensures t.At(h) == u.At(h)
    decreases w.Height(h)
  {
    if h != t.root.hash {
      assert t.ChildOk(w, h) && u.ChildOk(w, h);
      NodeDetermined(w, t, u, w.Prev(h));
    }
  }

  lemma ChildrenDetermined(w: World, t: Tree, u: Tree)
    requires t.Structured(w) && u.Structured(w)
    requires t.root.hash == u.root.hash && t.Blocks() == u.Blocks()
    ensures t.root == u.root && t.children == u.children
  {
    assert t.children.Keys == t.Blocks() - {t.root.hash};
    assert u.children.Keys == u.Blocks() - {u.root.hash};
    NodeDetermined(w, t, u, t.root.hash);
    forall h | h in t.children
      ensures t.children[h] == u.children[h]
    {
      NodeDetermined(w, t, u, h);
    }
  }

  lemma TreeDetermined(w: World, t: Tree, u: Tree)
    requires t.Structured(w) && u.Structured(w)
    requires t.root.hash == u.root.hash && t.Blocks() == u.Blocks()
    ensures t.(bestChain := []) == u.(bestChain := [])
  {
    ChildrenDetermined(w, t, u);
    assert t.tips.Keys == u.tips.Keys by {
      forall h
        ensures h in t.tips <==> h in u.tips
      {
        assert t.Childless(w, h) == u.Childless(w, h);
      }
    }
  }
}

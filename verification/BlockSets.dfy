/** What a set of known blocks determines: roots, branches and work sums.
    A forest of rooted trees holds exactly this information, so these
    functions are the reference the forest is proved against. */
module BlockSets {
  import opened Headers

  /** `h` has its parent among `s`. */
  predicate Attached(w: World, s: set<Hash>, h: Hash) {
    w.Prev(h) in s && w.IsParent(w.Prev(h), h)
  }

  /** The branch of `s` that ends in `h`, lowest block first. */
  function BranchTo(w: World, s: set<Hash>, h: Hash): (b: seq<Hash>)
    ensures |b| > 0 && b[|b| - 1] == h
    decreases w.Height(h)
  {
    if Attached(w, s, h) then BranchTo(w, s, w.Prev(h)) + [h] else [h]
  }

  /** The lowest block of the branch that ends in `h`. */
  function RootOf(w: World, s: set<Hash>, h: Hash): Hash
    decreases w.Height(h)
  {
    if Attached(w, s, h) then RootOf(w, s, w.Prev(h)) else h
  }

  /** The work of the branch that ends in `h`. */
  function WorkTo(w: World, s: set<Hash>, h: Hash): nat
    decreases w.Height(h)
  {
    w.Work(h) + if Attached(w, s, h) then WorkTo(w, s, w.Prev(h)) else 0
  }

  /** All blocks whose branch starts at `r`. */
  ghost function TreeOf(w: World, s: set<Hash>, r: Hash): set<Hash> {
    set h | h in s && RootOf(w, s, h) == r
  }

  ghost function Roots(w: World, s: set<Hash>): set<Hash> {
    set h | h in s && !Attached(w, s, h)
  }

  lemma {:induction false} RootIsUnattached(w: World, s: set<Hash>, h: Hash)
    requires h in s
    ensures RootOf(w, s, h) in Roots(w, s)
    ensures w.Height(RootOf(w, s, h)) <= w.Height(h)
    decreases w.Height(h)
  {
    if Attached(w, s, h) {
      RootIsUnattached(w, s, w.Prev(h));
    }
  }

  lemma {:induction false} BranchIsChain(w: World, s: set<Hash>, h: Hash)
    requires h in s
    ensures w.IsChain(BranchTo(w, s, h))
    ensures forall x :: x in BranchTo(w, s, h) ==> x in s && RootOf(w, s, x) == RootOf(w, s, h)
    ensures BranchTo(w, s, h)[0] == RootOf(w, s, h)
    ensures w.SumWork(BranchTo(w, s, h)) == WorkTo(w, s, h)
    decreases w.Height(h)
  {
    var b := BranchTo(w, s, h);
    if Attached(w, s, h) {
      BranchIsChain(w, s, w.Prev(h));
      assert b[..|b| - 1] == BranchTo(w, s, w.Prev(h));
    } else {
      assert b[..0] == [];
    }
  }

  /** A parent-linked run of blocks of `s` that starts at a root is the branch
      to its last block. */
  lemma {:induction false} ChainIsBranch(w: World, s: set<Hash>, c: seq<Hash>)
    requires |c| > 0 && w.IsChain(c)
    requires forall x :: x in c ==> x in s
    requires !Attached(w, s, c[0])
    ensures BranchTo(w, s, c[|c| - 1]) == c
  {
    if |c| > 1 {
      var c' := c[..|c| - 1];
      ChainIsBranch(w, s, c');
      assert w.IsParent(c[|c| - 2], c[|c| - 1]);
      assert c[|c| - 2] in c;
      assert c == c' + [c[|c| - 1]];
    }
  }

  /** Removing whole trees, or adding blocks elsewhere, leaves a branch alone
      as long as its blocks are kept and its root gains no parent. */
  lemma {:induction false} BranchUnchanged(w: World, s: set<Hash>, t: set<Hash>, h: Hash)
    requires h in s
    requires forall x :: x in BranchTo(w, s, h) ==> x in t
    requires !Attached(w, t, RootOf(w, s, h))
    ensures RootOf(w, t, h) == RootOf(w, s, h)
    ensures BranchTo(w, t, h) == BranchTo(w, s, h)
    ensures WorkTo(w, t, h) == WorkTo(w, s, h)
    decreases w.Height(h)
  {
    if Attached(w, s, h) {
      var p := w.Prev(h);
      var b := BranchTo(w, s, h);
      assert b == BranchTo(w, s, p) + [h];
      assert b[|b| - 2] == p && p in b;
      assert forall x :: x in BranchTo(w, s, p) ==> x in b;
      BranchUnchanged(w, s, t, p);
    }
  }

  /** If the root does gain a parent, the two branches are joined. */
  lemma {:induction false} BranchJoined(w: World, s: set<Hash>, t: set<Hash>, h: Hash)
    requires h in s
    requires forall x :: x in BranchTo(w, s, h) ==> x in t
    requires Attached(w, t, RootOf(w, s, h))
    ensures var p := w.Prev(RootOf(w, s, h));
            && RootOf(w, t, h) == RootOf(w, t, p)
            && BranchTo(w, t, h) == BranchTo(w, t, p) + BranchTo(w, s, h)
            && WorkTo(w, t, h) == WorkTo(w, t, p) + WorkTo(w, s, h)
    decreases w.Height(h)
  {
    if Attached(w, s, h) {
      var p := w.Prev(h);
      var b := BranchTo(w, s, h);
      assert b == BranchTo(w, s, p) + [h];
      assert b[|b| - 2] == p && p in b;
      assert forall x :: x in BranchTo(w, s, p) ==> x in b;
      BranchJoined(w, s, t, p);
      var q := w.Prev(RootOf(w, s, h));
      assert BranchTo(w, t, q) + BranchTo(w, s, p) + [h] == BranchTo(w, t, q) + BranchTo(w, s, h);
    }
  }
}

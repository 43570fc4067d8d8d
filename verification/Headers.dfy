/** Block headers, and the assumptions every chain result is stated under. */
module Headers {

  type Hash = nat

  /** The fields of a block header that the modelled code reads. */
  datatype Header = Header(
    prev: Hash,
    height: nat,
    bits: nat,
    sbits: int,
    timestamp: int,
    freshStake: nat,
    poolSize: nat)

  /** `headerOf` is the assumption that a block hash determines its header.
      `calcWork` is the work of a difficulty, any natural number.
      `known` holds every block hash that occurs in a run. */
  datatype World = World(headerOf: Hash -> Header, calcWork: nat -> nat, known: set<Hash>) {

    function Prev(h: Hash): Hash {
      headerOf(h).prev
    }

    function Height(h: Hash): nat {
      headerOf(h).height
    }

    function Work(h: Hash): nat {
      calcWork(headerOf(h).bits)
    }

    /** The test the forest makes before it attaches a child to a node. */
    predicate IsParent(p: Hash, c: Hash) {
      Prev(c) == p && Height(c) == Height(p) + 1
    }

    /** A known header that names another known header as its previous block
        is one higher. */
    ghost predicate Linked() {
      forall c {:trigger Prev(c) in known} :: c in known && Prev(c) in known ==> Height(c) == Height(Prev(c)) + 1
    }

    /** Every known header carries some work. */
    ghost predicate PositiveWork() {
      forall h :: h in known ==> Work(h) > 0
    }

    /** A parent-linked run of blocks, lowest first. */
    ghost predicate IsChain(c: seq<Hash>) {
      forall i :: 0 < i < |c| ==> IsParent(c[i - 1], c[i])
    }

    /** The work of all blocks of a sequence. */
    function SumWork(c: seq<Hash>): nat {
      if c == [] then 0 else SumWork(c[..|c| - 1]) + Work(c[|c| - 1])
    }
  }

  lemma {:induction false} SumWorkConcat(w: World, a: seq<Hash>, b: seq<Hash>)
    ensures w.SumWork(a + b) == w.SumWork(a) + w.SumWork(b)
  {
    if b == [] {
      assert a + b == a;
    } else {
      var b' := b[..|b| - 1];
      assert (a + b)[..|a + b| - 1] == a + b';
      SumWorkConcat(w, a, b');
    }
  }

  lemma {:induction false} ChainHeights(w: World, c: seq<Hash>, i: nat)
    requires w.IsChain(c) && i < |c|
    ensures w.Height(c[i]) == w.Height(c[0]) + i
  {
    if i > 0 {
      ChainHeights(w, c, i - 1);
    }
  }
}

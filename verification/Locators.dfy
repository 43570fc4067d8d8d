/** wallet/wallet.go: block locators.  The hashes of a chain's ancestors, one by one
    near the tip and with doubling gaps below, so that a peer on another branch
    finds a common ancestor not much further back than the fork. */
module Locators {
  import opened Headers
  import opened Powers

  /** The depth below the tip of the `j`th locator after the tip's own. */
  function Depth(j: nat): nat {
    if j < 9 then j else 8 + Pow2(j - 9)
  }

  /** How many binary digits a height has. */
  function Log2(x: nat): (digits: nat)
    decreases x
  {
    if x == 0 then 0 else 1 + Log2(x / 2)
  }

  method CalcLog2(x: nat) returns (res: nat)
    ensures res == Log2(x)
  {
    res := 0;
    var rest := x;
    while rest != 0
      invariant res + Log2(rest) == Log2(x)
    {
      rest := rest / 2;
      res := res + 1;
    }
  }

  lemma {:induction false} Log2Bounds(x: nat, k: nat)
    requires Pow2(k) <= x
    ensures k < Log2(x)
    decreases k
  {
    if k > 0 {
      Log2Bounds(x / 2, k - 1);
    }
  }

  /** It is the number of digits that are needed. */
  lemma {:induction false} Log2Exactly(x: nat)
    ensures x < Pow2(Log2(x)) && (x > 0 ==> Log2(x) > 0 && Pow2(Log2(x) - 1) <= x)
    decreases x
  {
    if x > 0 {
      Log2Exactly(x / 2);
    }
  }

  /** 32-bit signed wrap-around. */
  function Int32(x: int): int {
    (x + 0x8000_0000) % 0x1_0000_0000 - 0x8000_0000
  }

  datatype Block = Block(hash: Hash, height: nat)

  /** The sidechain begins with a child of a main chain block. */
  predicate Branches(main: seq<Hash>, sidechain: seq<Block>) {
    && 0 < |main|
    && (sidechain != [] ==> 0 < sidechain[0].height <= |main|)
    && forall i :: 0 <= i < |sidechain| ==> sidechain[i].height == sidechain[0].height + i
  }

  /** The hashes of the best block's ancestors, by height. */
  function Ancestors(main: seq<Hash>, sidechain: seq<Block>): (a: seq<Hash>)
    requires Branches(main, sidechain)
    ensures |a| > 0
    ensures sidechain != [] ==> |a| == sidechain[0].height + |sidechain|
  {
    if sidechain == [] then main
    else main[..sidechain[0].height] + seq(|sidechain|, i requires 0 <= i < |sidechain| => sidechain[i].hash)
  }

  /** There are `n` locators after the tip's own: one for each depth that the chain
      reaches. */
  ghost predicate Reaches(height: nat, n: nat) {
    (forall j :: 0 <= j < n ==> Depth(j) <= height) && Depth(n) > height
  }

  /** The locators are the tip and its ancestors at the depths reached, and there is
      room for all of them in what is reserved.  The doubling step may overflow,
      but is not used then. */
  method BlockLocators(main: seq<Hash>, sidechain: seq<Block>) returns (locators: seq<Hash>)
    requires Branches(main, sidechain)
    requires |main| < 0x8000_0000 && forall i :: 0 <= i < |sidechain| ==> sidechain[i].height < 0x8000_0000
    ensures var chain := Ancestors(main, sidechain);
            && 0 < |locators| <= 10 + Log2(|chain| - 1)
            && locators[0] == chain[|chain| - 1]
            && Reaches(|chain| - 1, |locators| - 1)
            && forall j :: 0 <= j < |locators| - 1 ==>
                 0 <= |chain| - 1 - Depth(j) && locators[j + 1] == chain[|chain| - 1 - Depth(j)]
  {
    hide Ancestors, Branches, Depth, Pow2, Log2, Int32, Step, Reaches;
    ghost var chain := Ancestors(main, sidechain);
    ghost var top := |chain| - 1;
    var hash, height := BestBlock(main, sidechain);
    var reserved := CalcLog2(height);
    reserved := 10 + reserved;
    locators := [hash];
    ghost var n := 0;
    var step: int := 1;
    StepStarts();
    while height >= 0
      invariant height == top - Depth(n) && n + 1 == |locators| && top < 0x8000_0000
      invariant locators[0] == chain[top]
      invariant step == Step(n)
      invariant forall j :: 0 <= j < n ==> Depth(j) <= top && locators[j + 1] == chain[top - Depth(j)]
      decreases top + 1 - n
    {
      DepthGrows(n, top);
      hash := BlockAt(main, sidechain, height);
      locators := locators + [hash];
      height := Int32(height - step);
      NextStep(n);
      if |locators| > 10 {
        step := Int32(step * 2);
      }
      n := n + 1;
    }
    ReachesIs(top, n);
    LocatorCount(top, n);
    assert |locators| <= reserved;
  }

  /** The last block of the branch, or the main chain tip if there is none. */
  method BestBlock(main: seq<Hash>, sidechain: seq<Block>) returns (hash: Hash, height: int)
    requires Branches(main, sidechain)
    requires |main| < 0x8000_0000 && forall i :: 0 <= i < |sidechain| ==> sidechain[i].height < 0x8000_0000
    ensures height == |Ancestors(main, sidechain)| - 1 < 0x8000_0000 && hash == Ancestors(main, sidechain)[height]
  {
    hide Ancestors;
    AncestorAt(main, sidechain, |Ancestors(main, sidechain)| - 1);
    if |sidechain| == 0 {
      return main[|main| - 1], |main| - 1;
    }
    var b := sidechain[|sidechain| - 1];
    return b.hash, b.height;
  }

  /** The ancestor at a height, from the branch or from the main chain. */
  method BlockAt(main: seq<Hash>, sidechain: seq<Block>, height: nat) returns (hash: Hash)
    requires Branches(main, sidechain) && height < |Ancestors(main, sidechain)|
    ensures hash == Ancestors(main, sidechain)[height]
  {
    AncestorAt(main, sidechain, height);
    if |sidechain| > 0 && height - sidechain[0].height >= 0 {
      hash := sidechain[height - sidechain[0].height].hash;
    } else {
      hash := main[height];
    }
  }

  /** The loop's step before the `n`th locator after the tip's own. */
  function Step(n: nat): int {
    Int32(if n < 9 then 1 else Pow2(n - 9))
  }

  lemma StepStarts()
    ensures Step(0) == 1 && Depth(0) == 0
  {
  }

  lemma NextStep(n: nat)
    ensures Step(n + 1) == if n + 2 > 10 then Int32(Step(n) * 2) else Step(n)
  {
    if n >= 9 {
      Doubled(Pow2(n - 9));
    }
  }

  /** Wrapping around commutes with doubling. */
  lemma Doubled(x: int)
    ensures Int32(Int32(x) * 2) == Int32(x * 2)
  {
    var q := (x + 0x8000_0000) / 0x1_0000_0000;
    assert Int32(x) == x - q * 0x1_0000_0000;
    SameResidue(Int32(x) * 2 + 0x8000_0000, 2 * q);
  }

  lemma SameResidue(x: int, q: int)
    ensures (x + q * 0x1_0000_0000) % 0x1_0000_0000 == x % 0x1_0000_0000
  {
    var y := x + q * 0x1_0000_0000;
    assert y / 0x1_0000_0000 == x / 0x1_0000_0000 + q;
  }

  lemma ReachesIs(height: nat, n: nat)
    requires Depth(n) > height && forall j :: 0 <= j < n ==> Depth(j) <= height
    ensures Reaches(height, n)
  {
  }

  /** Where the ancestor at a height is found. */
  lemma AncestorAt(main: seq<Hash>, sidechain: seq<Block>, height: nat)
    requires Branches(main, sidechain) && height < |Ancestors(main, sidechain)|
    ensures Ancestors(main, sidechain)[height] ==
      if sidechain != [] && height >= sidechain[0].height then sidechain[height - sidechain[0].height].hash else main[height]
    ensures |Ancestors(main, sidechain)| == if sidechain == [] then |main| else sidechain[|sidechain| - 1].height + 1
  {
  }

  /** While a depth is reached the step is exact, and the next depth adds it. */
  lemma DepthGrows(n: nat, top: nat)
    requires Depth(n) <= top < 0x8000_0000
    ensures Depth(n + 1) == Depth(n) + Step(n) && Int32(top - Depth(n) - Step(n)) == top - Depth(n) - Step(n)
    ensures n <= Depth(n)
  {
    if n >= 9 {
      DepthAtLeast(n);
    }
  }

  lemma {:induction false} DepthAtLeast(n: nat)
    ensures n <= Depth(n)
  {
    if n > 9 {
      DepthAtLeast(n - 1);
    }
  }

  /** No more locators than are reserved. */
  lemma LocatorCount(height: nat, n: nat)
    requires Reaches(height, n)
    ensures n + 1 <= 10 + Log2(height)
  {
    if n > 9 {
      assert Depth(n - 1) <= height;
      Log2Bounds(height, n - 10);
    }
  }

  /** Heights strictly decrease after the tip. */
  lemma {:induction false} DepthsIncrease(i: nat, j: nat)
    requires i < j
    ensures Depth(i) < Depth(j)
    decreases j - i
  {
    if j > i + 1 {
      DepthsIncrease(i, j - 1);
    }
    if j - 1 >= 9 {
      assert Pow2(j - 9) == 2 * Pow2(j - 10);
    }
  }

  /** If some locator is at or below a fork, the nearest one is at most twice as
      deep as the fork. */
  lemma {:induction false} NearestLocator(fork: nat, last: nat) returns (j: nat)
    requires fork <= Depth(last)
    ensures j <= last && fork <= Depth(j) <= 2 * fork
    ensures forall i :: 0 <= i < j ==> Depth(i) < fork
    decreases last
  {
    if last == 0 || Depth(last - 1) < fork {
      j := last;
      forall i: nat | i < j
        ensures Depth(i) < fork
      {
        if i < last - 1 {
          DepthsIncrease(i, last - 1);
        }
      }
      if last > 9 {
        assert Pow2(last - 9) == 2 * Pow2(last - 10);
      }
    } else {
      j := NearestLocator(fork, last - 1);
    }
  }

  /** The genesis block is a locator exactly if the tip is at a height of at most 8, or
      of 8 plus a power of two. */
  lemma GenesisIsLocator(height: nat, n: nat)
    requires Reaches(height, n)
    ensures (exists j: nat :: j < n && Depth(j) == height) <==> height <= 8 || exists k: nat :: Pow2(k) == height - 8
  {
    hide Reaches, Pow2;
    if j: nat :| j < n && Depth(j) == height {
      if j >= 9 {
        var k: nat := j - 9;
        assert Pow2(k) == height - 8;
      }
    }
    if height <= 8 {
      assert Depth(height) == height;
      DepthReached(height, n, height);
    } else if k: nat :| Pow2(k) == height - 8 {
      var j: nat := k + 9;
      assert Depth(j) == height;
      DepthReached(height, n, j);
    }
  }

  lemma DepthReached(height: nat, n: nat, j: nat)
    requires Reaches(height, n) && Depth(j) == height
    ensures j < n
  {
    if n < j {
      DepthsIncrease(n, j);
    }
  }

  /** At height 11 the deepest locator is the block at height 1, so that a fork at the
      genesis block is below all of them. */
  lemma GenesisSkipped()
    ensures Reaches(11, 11) && forall j :: 0 <= j < 11 ==> Depth(j) < 11
  {
    assert Pow2(0) == 1 && Pow2(1) == 2 && Pow2(2) == 4;
  }
}

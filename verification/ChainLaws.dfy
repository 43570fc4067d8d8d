/** What a main chain of valid blocks looks like, header by header: when ticket price and
    difficulty bits change, and to what (wallet/difficulty.go). */
module ChainLaws {
  import opened Headers
  import opened Powers
  import opened Compacts
  import opened Retargets
  import opened StakePrices
  import opened Difficulties
  import opened Validity

  function At(w: World, main: seq<Hash>, k: nat): Header
    requires k < |main|
  {
    w.headerOf(main[k])
  }

  lemma ValidAt(r: Rules, w: World, main: seq<Hash>, k: nat)
    requires ChainValid(r, w, main) && 0 < k < |main|
    ensures RulesOk(r) && |HistoryOf(w, main)| == |main| && BlockOk(r.params, r.powOk, HistoryOf(w, main), k)
    ensures forall i :: 0 <= i < |main| ==> HistoryOf(w, main)[i] == At(w, main, i)
  {
  }

  /** Every block above the genesis block did its work. */
  lemma WorkDone(r: Rules, w: World, main: seq<Hash>, k: nat)
    requires ChainValid(r, w, main) && 0 < k < |main|
    ensures r.powOk(At(w, main, k))
  {
    ValidAt(r, w, main, k);
  }

  // ----- ticket prices -----

  /** Until tickets can be bought, the price is the minimum, on every recognized
      network. */
  lemma PriceStarts(r: Rules, w: World, main: seq<Hash>, k: nat)
    requires ChainValid(r, w, main) && 0 < k < |main| && !r.params.net.OtherNet?
    requires k <= r.params.stake.coinbaseMaturity
    ensures At(w, main, k).sbits == r.params.stake.minimumStakeDiff
  {
    ValidAt(r, w, main, k);
  }

  /** After that it changes only at multiples of the window. */
  lemma PriceKept(r: Rules, w: World, main: seq<Hash>, k: nat)
    requires ChainValid(r, w, main) && 0 < k < |main| && !r.params.net.OtherNet?
    requires k > r.params.stake.coinbaseMaturity && k % r.params.stake.stakeDiffWindowSize != 0
    ensures At(w, main, k).sbits == At(w, main, k - 1).sbits
  {
    ValidAt(r, w, main, k);
  }

  /** The tickets bought in blocks `lo` up to, but not including, `hi`. */
  function Bought(w: World, main: seq<Hash>, lo: nat, hi: nat): nat
    requires hi <= |main|
  {
    if hi <= lo then 0 else Bought(w, main, lo, hi - 1) + At(w, main, hi - 1).freshStake
  }

  /** The ticket pool after block `k`, immature tickets included; none before the first
      block. */
  function PoolAll(w: World, main: seq<Hash>, maturity: nat, k: int): nat
    requires k < |main|
  {
    if k < 0 then 0
    else At(w, main, k).poolSize + Bought(w, main, if k + 1 < maturity then 0 else k + 1 - maturity, k + 1)
  }

  lemma {:induction false} BoughtIs(w: World, main: seq<Hash>, k: nat, n: nat)
    requires k < |main|
    ensures TicketsBought(HistoryOf(w, main), k, n) == Bought(w, main, if k + 1 < n then 0 else k + 1 - n, k + 1)
  {
    if n == 0 {
    } else if k == 0 {
      assert Bought(w, main, 0, 0) == 0;
    } else {
      BoughtIs(w, main, k - 1, n - 1);
    }
  }

  /** There it becomes DCP0001's quotient of the pool now and one window before, clamped
      between the minimum, which wins, and the supply-based maximum; with no pool before
      it stays.  This is for quotients that fit in 64 bits. */
  lemma PriceChanges(r: Rules, w: World, main: seq<Hash>, k: nat)
    requires ChainValid(r, w, main) && 0 < k < |main| && !r.params.net.OtherNet?
    requires k > r.params.stake.coinbaseMaturity && k % r.params.stake.stakeDiffWindowSize == 0
    ensures RulesOk(r)
    ensures var p := r.params.stake;
            var before := PoolAll(w, main, p.ticketMaturity, k - 1 - p.stakeDiffWindowSize);
            var now := PoolAll(w, main, p.ticketMaturity, k - 1);
            var price := At(w, main, k - 1).sbits;
            var target := p.ticketsPerBlock * (p.ticketPoolSize + p.ticketMaturity);
            var max := MaximumStakeDiff(p, k);
            && target > 0
            && (before == 0 ==> At(w, main, k).sbits == price)
            && (before > 0 && price >= 0 && price * (now * now) / Product(before, target) < 0x8000_0000_0000_0000 ==>
                 var q := price * (now * now) / Product(before, target);
                 At(w, main, k).sbits == if q < p.minimumStakeDiff || max < p.minimumStakeDiff then p.minimumStakeDiff
                                         else if q > max then max else q)
  {
    ValidAt(r, w, main, k);
    var p := r.params.stake;
    var hist := HistoryOf(w, main);
    MulPositive(p.ticketsPerBlock, p.ticketPoolSize + p.ticketMaturity);
    BoughtIs(w, main, k - 1, p.ticketMaturity);
    var j := k - 1 - p.stakeDiffWindowSize;
    if j >= 0 {
      BoughtIs(w, main, j, p.ticketMaturity);
    }
    var before, now := PoolAll(w, main, p.ticketMaturity, j), PoolAll(w, main, p.ticketMaturity, k - 1);
    var price := At(w, main, k - 1).sbits;
    if before > 0 && price >= 0 {
      PriceBetween(p, k, price, before, now);
    }
    hide TicketsBought, CalcNextStakeDiffV2, Bought, Product, MaximumStakeDiff, HistoryOf, RequiredBits, ChainValid;
  }

  /** A product of positive numbers. */
  function Product(a: nat, b: nat): (c: nat)
    requires a > 0 && b > 0
    ensures c > 0
  {
    MulPositive(a, b);
    a * b
  }

  lemma PriceBetween(p: StakeParams, k: nat, price: nat, before: nat, now: nat)
    requires StakeParamsOk(p) && before > 0
    ensures TargetPoolSizeAll(p) > 0 && TargetPoolSizeAll(p) == p.ticketsPerBlock * (p.ticketPoolSize + p.ticketMaturity)
    ensures var q, max := price * (now * now) / Product(before, TargetPoolSizeAll(p)), MaximumStakeDiff(p, k);
            q < 0x8000_0000_0000_0000 ==>
              CalcNextStakeDiffV2(p, k, price, before, now) ==
              if q < p.minimumStakeDiff || max < p.minimumStakeDiff then p.minimumStakeDiff else if q > max then max else q
  {
    NextPriceIsDcp0001(p, k, price, before, now);
    hide MaximumStakeDiff;
  }

  /** The maximum is the sum of all subsidies so far for each ticket of the pool, if the
      first block's subsidy is not reduced. */
  lemma MaximumIsSupply(p: StakeParams, height: nat)
    requires StakeParamsOk(p) && height > 0 && FirstBlockPlain(p)
    ensures MaximumStakeDiff(p, height) == SupplyThrough(p, height) / p.ticketPoolSize
  {
    EstimateIsSum(p, height);
  }

  /** On other networks the price is not checked: it can be any. */
  lemma OtherPricesFree(r: Rules, hist: History, k: nat, price: int)
    requires RulesOk(r) && r.params.net.OtherNet? && 0 < k < |hist| && BlockOk(r.params, r.powOk, hist, k)
    requires r.powOk(hist[k].(sbits := price))
    ensures BlockOk(r.params, r.powOk, hist[k := hist[k].(sbits := price)], k)
  {
    var hist' := hist[k := hist[k].(sbits := price)];
    assert hist'[..k] == hist[..k];
    BitsBelow(r.params.pow, hist, hist', k - 1, hist[k].timestamp);
    hide RequiredBits;
  }

  // ----- difficulty bits -----

  /** Off the retarget heights the bits stay, on networks without the minimum difficulty
      rule. */
  lemma BitsKept(r: Rules, w: World, main: seq<Hash>, k: nat)
    requires ChainValid(r, w, main) && 0 < k < |main| && !r.params.pow.reduceMinDifficulty
    requires r.params.pow.workDiffWindowSize > 0 && k % r.params.pow.workDiffWindowSize != 0
    ensures At(w, main, k).bits == At(w, main, k - 1).bits
  {
    ValidAt(r, w, main, k);
  }

  /** With that rule, a block that took too long has the bits of the limit. */
  lemma BitsMinimum(r: Rules, w: World, main: seq<Hash>, k: nat)
    requires ChainValid(r, w, main) && 0 < k < |main| && r.params.pow.reduceMinDifficulty
    requires r.params.pow.workDiffWindowSize > 0 && k % r.params.pow.workDiffWindowSize != 0
    requires At(w, main, k).timestamp > At(w, main, k - 1).timestamp + r.params.pow.minDiffReductionTime
    ensures At(w, main, k).bits == r.params.pow.powLimitBits
  {
    ValidAt(r, w, main, k);
  }

  /** Otherwise it has those of the last block below it that did not use the rule: the
      first one back that has other bits, is at a multiple of all windows, or is the
      genesis block. */
  lemma BitsRegular(r: Rules, w: World, main: seq<Hash>, k: nat) returns (j: nat)
    requires ChainValid(r, w, main) && 0 < k < |main| && r.params.pow.reduceMinDifficulty
    requires r.params.pow.workDiffWindowSize > 0 && k % r.params.pow.workDiffWindowSize != 0
    requires At(w, main, k).timestamp <= At(w, main, k - 1).timestamp + r.params.pow.minDiffReductionTime
    ensures j < k && At(w, main, k).bits == At(w, main, j).bits
    ensures var all := r.params.pow.workDiffWindowSize * r.params.pow.workDiffWindows;
            && all > 0
            && (j == 0 || j % all == 0 || At(w, main, j).bits != r.params.pow.powLimitBits)
            && forall i :: j < i < k ==> i % all != 0 && At(w, main, i).bits == r.params.pow.powLimitBits
  {
    ValidAt(r, w, main, k);
    var p := r.params.pow;
    MulPositive(p.workDiffWindowSize, p.workDiffWindows);
    j := LastRegular(p, HistoryOf(w, main), k - 1);
  }

  lemma {:induction false} LastRegular(p: PowParams, hist: History, k: nat) returns (j: nat)
    requires k < |hist| && p.workDiffWindowSize * p.workDiffWindows > 0
    ensures j <= k && LastRegularBits(p, hist, k) == hist[j].bits
    ensures var all := p.workDiffWindowSize * p.workDiffWindows;
            && (j == 0 || j % all == 0 || hist[j].bits != p.powLimitBits)
            && forall i :: j < i <= k ==> i % all != 0 && hist[i].bits == p.powLimitBits
  {
    var all := p.workDiffWindowSize * p.workDiffWindows;
    if k % all != 0 && hist[k].bits == p.powLimitBits && k > 0 {
      j := LastRegular(p, hist, k - 1);
    } else {
      j := k;
    }
  }

  /** The time from one block to another below it; a window that reaches the genesis
      block counts as on target. */
  function Took(p: PowParams, w: World, main: seq<Hash>, newer: int, older: int): int
    requires newer < |main| && older <= newer
  {
    if older <= 0 then p.targetTimespan else At(w, main, newer).timestamp - At(w, main, older).timestamp
  }

  /** At retarget heights the target is computed from the times of the last windows. */
  lemma BitsRetarget(r: Rules, w: World, main: seq<Hash>, k: nat) returns (times: seq<int>)
    requires ChainValid(r, w, main) && 0 < k < |main|
    requires r.params.pow.workDiffWindowSize > 0 && k % r.params.pow.workDiffWindowSize == 0
    ensures var p := r.params.pow;
            && PowParamsOk(p) && |times| == p.workDiffWindows && Weights(p, |times|) > 0
            && (forall i :: 0 <= i < |times| ==>
                 WindowEnd(k, i + 1, p.workDiffWindowSize) <= WindowEnd(k, i, p.workDiffWindowSize) < |main|
                 && times[i] == Took(p, w, main, WindowEnd(k, i, p.workDiffWindowSize), WindowEnd(k, i + 1, p.workDiffWindowSize)))
            && At(w, main, k).bits == BigToCompact(NextTarget(p, times, CompactToBig(At(w, main, k - 1).bits)))
  {
    hide NextTarget, BigToCompact, CompactToBig, ChainValid, WindowTime, Took, WindowEnd, Weights;
    times := RetargetTimes(r, w, main, k);
    var p := r.params.pow;
    forall i | 0 <= i < |times|
      ensures WindowEnd(k, i + 1, p.workDiffWindowSize) <= WindowEnd(k, i, p.workDiffWindowSize) < |main|
      ensures times[i] == Took(p, w, main, WindowEnd(k, i, p.workDiffWindowSize), WindowEnd(k, i + 1, p.workDiffWindowSize))
    {
      WindowTook(r, w, main, k, i);
    }
  }

  lemma RetargetTimes(r: Rules, w: World, main: seq<Hash>, k: nat) returns (times: seq<int>)
    requires ChainValid(r, w, main) && 0 < k < |main|
    requires r.params.pow.workDiffWindowSize > 0 && k % r.params.pow.workDiffWindowSize == 0
    ensures var p := r.params.pow;
            && PowParamsOk(p) && |HistoryOf(w, main)| == |main|
            && |times| == p.workDiffWindows && Weights(p, |times|) > 0
            && (forall i :: 0 <= i < |times| ==> times[i] == WindowTime(p, HistoryOf(w, main), k - 1, i))
            && At(w, main, k).bits == BigToCompact(NextTarget(p, times, CompactToBig(At(w, main, k - 1).bits)))
  {
    hide NextTarget, BigToCompact, CompactToBig, ChainValid, RequiredPrice, WindowTime;
    ValidAt(r, w, main, k);
    var p := r.params.pow;
    WeightsPositive(p, p.workDiffWindows);
    times := WindowTimes(p, HistoryOf(w, main), k - 1, p.workDiffWindows);
  }

  lemma WindowTook(r: Rules, w: World, main: seq<Hash>, k: nat, i: nat)
    requires ChainValid(r, w, main) && 0 < k < |main|
    ensures var p := r.params.pow;
            && |HistoryOf(w, main)| == |main|
            && WindowEnd(k, i + 1, p.workDiffWindowSize) <= WindowEnd(k, i, p.workDiffWindowSize) < |main|
            && WindowTime(p, HistoryOf(w, main), k - 1, i) ==
               Took(p, w, main, WindowEnd(k, i, p.workDiffWindowSize), WindowEnd(k, i + 1, p.workDiffWindowSize))
  {
    ValidAt(r, w, main, k);
    MulLe(i, i + 1, r.params.pow.workDiffWindowSize);
    MulLe(0, i, r.params.pow.workDiffWindowSize);
    hide ChainValid, RequiredBits, RequiredPrice;
  }

  /** The height of the block that ends the `i`th window back. */
  function WindowEnd(k: nat, i: nat, size: nat): int {
    k - 1 - i * size
  }
}

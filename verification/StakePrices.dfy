/** wallet/difficulty.go: the estimated coin supply and the ticket price of
    DCP0001. */
module StakePrices {
  import opened Powers

  datatype StakeParams = StakeParams(
    blockOneSubsidy: nat,
    baseSubsidy: nat,
    mulSubsidy: nat,
    divSubsidy: nat,
    subsidyReductionInterval: nat,
    ticketsPerBlock: nat,
    ticketPoolSize: nat,
    ticketMaturity: nat,
    coinbaseMaturity: nat,
    stakeDiffWindowSize: nat,
    minimumStakeDiff: int)

  ghost predicate StakeParamsOk(p: StakeParams) {
    && p.divSubsidy > 0 && p.subsidyReductionInterval > 0
    && p.ticketsPerBlock > 0 && p.ticketPoolSize > 0 && p.stakeDiffWindowSize > 0
  }

  // ----- supply -----

  /** The base subsidy after some reductions. */
  function ReducedSubsidy(p: StakeParams, reductions: nat): nat
    requires p.divSubsidy > 0
  {
    if reductions == 0 then p.baseSubsidy
    else ReducedSubsidy(p, reductions - 1) * p.mulSubsidy / p.divSubsidy
  }

  /** The full subsidy of one block. */
  function BlockSubsidy(p: StakeParams, height: nat): nat
    requires p.divSubsidy > 0 && p.subsidyReductionInterval > 0
  {
    if height == 0 then 0
    else if height == 1 then p.blockOneSubsidy
    else ReducedSubsidy(p, height / p.subsidyReductionInterval)
  }

  /** The subsidies of blocks 0 to `height`, added one by one. */
  function SupplyThrough(p: StakeParams, height: nat): nat
    requires p.divSubsidy > 0 && p.subsidyReductionInterval > 0
  {
    BlockSubsidy(p, height) + if height == 0 then 0 else SupplyThrough(p, height - 1)
  }

  /** The subsidies, block by block: nothing for the genesis block, a special one for the
      first, then the base subsidy, reduced by the fraction `mulSubsidy / divSubsidy`,
      rounded down, at every multiple of the interval. */
  lemma SubsidyExactly(p: StakeParams, height: nat)
    requires StakeParamsOk(p)
    ensures BlockSubsidy(p, 0) == 0 && BlockSubsidy(p, 1) == p.blockOneSubsidy
    ensures 1 < height < p.subsidyReductionInterval ==> BlockSubsidy(p, height) == p.baseSubsidy
    ensures height > 2 ==>
              var before, now := BlockSubsidy(p, height - 1), BlockSubsidy(p, height);
              if height % p.subsidyReductionInterval != 0 then now == before
              else now * p.divSubsidy <= before * p.mulSubsidy < now * p.divSubsidy + p.divSubsidy
  {
    var n := p.subsidyReductionInterval;
    FloorBounds(height, n);
    if 1 < height < n {
      FloorIs(height, n, 0);
    }
    if height > 2 {
      var q, rest := height / n, height % n;
      assert height == q * n + rest;
      if rest != 0 {
        FloorIs(height - 1, n, q);
      } else {
        assert (q - 1) * n == q * n - n;
        PositiveQuotient(q, n);
        FloorIs(height - 1, n, q - 1);
        FloorBounds(ReducedSubsidy(p, q - 1) * p.mulSubsidy, p.divSubsidy);
      }
    }
  }

  lemma PositiveQuotient(q: int, n: nat)
    requires q * n > 0
    ensures q > 0
  {
    if q <= 0 {
      MulLe(q, 0, n);
    }
  }

  /** The same sum without the special first two blocks. */
  function PlainSupply(p: StakeParams, height: nat): nat
    requires p.divSubsidy > 0 && p.subsidyReductionInterval > 0
  {
    ReducedSubsidy(p, height / p.subsidyReductionInterval) + if height == 0 then 0 else PlainSupply(p, height - 1)
  }

  /** What the first block would have got is what the formula takes back. */
  ghost predicate FirstBlockPlain(p: StakeParams)
    requires p.divSubsidy > 0 && p.subsidyReductionInterval > 0
  {
    ReducedSubsidy(p, 1 / p.subsidyReductionInterval) == p.baseSubsidy
  }

  lemma {:induction false} PlainMinusSpecial(p: StakeParams, height: nat)
    requires StakeParamsOk(p) && height > 0
    ensures PlainSupply(p, height) + p.blockOneSubsidy ==
            SupplyThrough(p, height) + p.baseSubsidy + ReducedSubsidy(p, 1 / p.subsidyReductionInterval)
  {
    if height == 1 {
      assert PlainSupply(p, 0) == ReducedSubsidy(p, 0);
    } else {
      PlainMinusSpecial(p, height - 1);
    }
  }

  lemma PlainStep(p: StakeParams, r: nat, k: nat)
    requires StakeParamsOk(p) && k < p.subsidyReductionInterval
    ensures var h := r * p.subsidyReductionInterval + k;
            && h >= 0
            && PlainSupply(p, h) == ReducedSubsidy(p, r) + (if h == 0 then 0 else PlainSupply(p, h - 1))
  {
    FloorIs(r * p.subsidyReductionInterval + k, p.subsidyReductionInterval, r);
  }

  /** A whole reduction interval at once. */
  lemma {:induction false} PlainByInterval(p: StakeParams, r: nat, k: nat)
    requires StakeParamsOk(p) && k < p.subsidyReductionInterval
    ensures r * p.subsidyReductionInterval + k >= 0
    ensures PlainSupply(p, r * p.subsidyReductionInterval + k) == IntervalSum(p, r) + (k + 1) * ReducedSubsidy(p, r)
    decreases r, k
  {
    hide PlainSupply, ReducedSubsidy;
    var n, sub := p.subsidyReductionInterval, ReducedSubsidy(p, r);
    PlainStep(p, r, k);
    if k > 0 {
      PlainByInterval(p, r, k - 1);
      assert (k + 1) * sub == k * sub + sub;
    } else if r > 0 {
      PlainByInterval(p, r - 1, n - 1);
      assert r * n - 1 == (r - 1) * n + (n - 1);
    }
  }

  function IntervalSum(p: StakeParams, r: nat): nat
    requires p.divSubsidy > 0
  {
    if r == 0 then 0 else IntervalSum(p, r - 1) + p.subsidyReductionInterval * ReducedSubsidy(p, r - 1)
  }

  /** The estimate, whole reduction intervals first. */
  function Estimate(p: StakeParams, height: int): int
    requires p.divSubsidy > 0 && p.subsidyReductionInterval > 0
  {
    if height <= 0 then 0
    else
      var reductions := height / p.subsidyReductionInterval;
      var rest := height % p.subsidyReductionInterval;
      p.blockOneSubsidy + IntervalSum(p, reductions) + (1 + rest) * ReducedSubsidy(p, reductions) - p.baseSubsidy * 2
  }

  /** The estimate is computed interval by interval; it is the block-by-block sum
      of subsidies exactly if the first block would have had the unreduced one. */
  method EstimateSupply(p: StakeParams, height: int) returns (supply: int)
    requires StakeParamsOk(p)
    ensures supply == Estimate(p, height)
    ensures height > 0 ==> (supply == SupplyThrough(p, height) <==> FirstBlockPlain(p))
    ensures height <= 0 ==> supply == 0
  {
    if height <= 0 {
      return 0;
    }
    supply := p.blockOneSubsidy;
    var reductions := height / p.subsidyReductionInterval;
    var subsidy := p.baseSubsidy;
    var i := 0;
    while i < reductions
      invariant 0 <= i <= reductions
      invariant subsidy == ReducedSubsidy(p, i)
      invariant supply == p.blockOneSubsidy + IntervalSum(p, i)
    {
      supply := supply + p.subsidyReductionInterval * subsidy;
      subsidy := subsidy * p.mulSubsidy;
      subsidy := subsidy / p.divSubsidy;
      i := i + 1;
    }
    var rest := height % p.subsidyReductionInterval;
    EstimateIsSum(p, height);
    hide FirstBlockPlain, SupplyThrough, IntervalSum, ReducedSubsidy;
    supply := supply + (1 + rest) * subsidy;
    supply := supply - p.baseSubsidy * 2;
  }

  /** The estimate against the block-by-block sum: it takes back the unreduced
      subsidy for the first block, whatever that block's would have been. */
  lemma EstimateAgainstSum(p: StakeParams, height: nat)
    requires StakeParamsOk(p) && height > 0
    ensures Estimate(p, height) == SupplyThrough(p, height) + ReducedSubsidy(p, 1 / p.subsidyReductionInterval) - p.baseSubsidy
  {
    var r, rest := height / p.subsidyReductionInterval, height % p.subsidyReductionInterval;
    FloorBounds(height, p.subsidyReductionInterval);
    assert height == r * p.subsidyReductionInterval + rest;
    PlainByInterval(p, r, rest);
    PlainMinusSpecial(p, height);
  }

  /** The estimate is the block-by-block subsidy sum exactly if the first block
      would have had the unreduced subsidy, as with any interval above one. */
  lemma EstimateIsSum(p: StakeParams, height: nat)
    requires StakeParamsOk(p) && height > 0
    ensures Estimate(p, height) == SupplyThrough(p, height) <==> FirstBlockPlain(p)
    ensures p.subsidyReductionInterval > 1 ==> FirstBlockPlain(p)
  {
    EstimateAgainstSum(p, height);
    if p.subsidyReductionInterval > 1 {
      FloorIs(1, p.subsidyReductionInterval, 0);
    }
  }

  /** From the first block on the estimate never decreases with height. */
  lemma {:induction false} EstimateGrows(p: StakeParams, low: int, high: int)
    requires StakeParamsOk(p) && 0 < low <= high
    ensures Estimate(p, low) <= Estimate(p, high)
    decreases high - low
  {
    hide Estimate, ReducedSubsidy;
    if low < high {
      EstimateGrows(p, low, high - 1);
      EstimateAgainstSum(p, high);
      EstimateAgainstSum(p, high - 1);
    }
  }

  /** Nor does it before, exactly if the first block is not estimated below zero,
      as with any interval above one. */
  lemma EstimateGrowsExactly(p: StakeParams)
    requires StakeParamsOk(p)
    ensures (forall low: int, high: int :: low <= high ==> Estimate(p, low) <= Estimate(p, high)) <==>
            p.blockOneSubsidy + ReducedSubsidy(p, 1 / p.subsidyReductionInterval) >= p.baseSubsidy
    ensures p.subsidyReductionInterval > 1 ==>
              p.blockOneSubsidy + ReducedSubsidy(p, 1 / p.subsidyReductionInterval) >= p.baseSubsidy
  {
    EstimateIsSum(p, 1);
    EstimateAgainstSum(p, 1);
    assert SupplyThrough(p, 0) == 0 && SupplyThrough(p, 1) == p.blockOneSubsidy;
    assert Estimate(p, 0) == 0;
    if p.blockOneSubsidy + ReducedSubsidy(p, 1 / p.subsidyReductionInterval) >= p.baseSubsidy {
      forall low: int, high: int | low <= high
        ensures Estimate(p, low) <= Estimate(p, high)
      {
        if low > 0 {
          EstimateGrows(p, low, high);
        } else if high > 0 {
          EstimateGrows(p, 1, high);
        }
      }
    }
  }

  // ----- ticket price -----

  /** Go's conversion of a big integer to 64 bits keeps the low bits. */
  function Int64(x: int): int {
    var low := x % 0x1_0000_0000_0000_0000;
    if low < 0x8000_0000_0000_0000 then low else low - 0x1_0000_0000_0000_0000
  }

  function Clamp(next: int, max: int, min: int): int {
    var capped := if next > max then max else next;
    if capped < min then min else capped
  }

  function TargetPoolSizeAll(p: StakeParams): nat {
    p.ticketsPerBlock * (p.ticketPoolSize + p.ticketMaturity)
  }

  /** Go's division of integers drops the fraction. */
  function Quo(a: int, b: nat): int
    requires b > 0
  {
    if a >= 0 then a / b else -(-a / b)
  }

  /** The highest price the estimated supply allows. */
  function MaximumStakeDiff(p: StakeParams, nextHeight: nat): int
    requires p.divSubsidy > 0 && p.subsidyReductionInterval > 0 && p.ticketPoolSize > 0
  {
    Quo(Estimate(p, nextHeight), p.ticketPoolSize)
  }

  /** The next ticket price from the present one and two pool sizes. */
  function CalcNextStakeDiffV2(p: StakeParams, nextHeight: nat, curDiff: int, prevPoolSizeAll: nat, curPoolSizeAll: nat): int
    requires p.divSubsidy > 0 && p.subsidyReductionInterval > 0
    requires p.ticketPoolSize > 0 && prevPoolSizeAll > 0 && TargetPoolSizeAll(p) > 0
  {
    var next := curDiff * curPoolSizeAll * curPoolSizeAll / prevPoolSizeAll / TargetPoolSizeAll(p);
    Clamp(Int64(next), MaximumStakeDiff(p, nextHeight), p.minimumStakeDiff)
  }

  /** The unclamped price as DCP0001 states it. */
  function Dcp0001Price(p: StakeParams, curDiff: nat, prevPoolSizeAll: nat, curPoolSizeAll: nat): nat
    requires prevPoolSizeAll * TargetPoolSizeAll(p) > 0
  {
    curDiff * (curPoolSizeAll * curPoolSizeAll) / (prevPoolSizeAll * TargetPoolSizeAll(p))
  }

  /** The unclamped price fits in 64 bits, or what its low 64 bits give is clamped
      to the same. */
  predicate Fits(d: nat, max: int, min: int) {
    d < 0x8000_0000_0000_0000 || Int64(d) >= max || d <= min || max <= min
  }

  lemma TwoStepDivision(p: StakeParams, curDiff: nat, prev: nat, cur: nat)
    requires StakeParamsOk(p) && prev > 0
    ensures TargetPoolSizeAll(p) > 0 && prev * TargetPoolSizeAll(p) > 0
    ensures curDiff * cur * cur / prev / TargetPoolSizeAll(p) == Dcp0001Price(p, curDiff, prev, cur)
  {
    MulPositive(p.ticketsPerBlock, p.ticketPoolSize + p.ticketMaturity);
    MulPositive(prev, TargetPoolSizeAll(p));
    DivTwice(curDiff * cur * cur, prev, TargetPoolSizeAll(p));
    assert curDiff * cur * cur == curDiff * (cur * cur);
  }

  /** The two-step division computes DCP0001's formula.  After the conversion to 64
      bits and the clamp, the price is DCP0001's exactly if it fits. */
  lemma NextPriceIsDcp0001(p: StakeParams, nextHeight: nat, curDiff: nat, prevPoolSizeAll: nat, curPoolSizeAll: nat)
    requires StakeParamsOk(p) && prevPoolSizeAll > 0
    ensures TargetPoolSizeAll(p) > 0 && prevPoolSizeAll * TargetPoolSizeAll(p) > 0
    ensures var d := Dcp0001Price(p, curDiff, prevPoolSizeAll, curPoolSizeAll);
            var max := MaximumStakeDiff(p, nextHeight);
            CalcNextStakeDiffV2(p, nextHeight, curDiff, prevPoolSizeAll, curPoolSizeAll) == Clamp(d, max, p.minimumStakeDiff)
            <==> Fits(d, max, p.minimumStakeDiff)
  {
    TwoStepDivision(p, curDiff, prevPoolSizeAll, curPoolSizeAll);
    hide Dcp0001Price, MaximumStakeDiff;
    LowBitsLess(Dcp0001Price(p, curDiff, prevPoolSizeAll, curPoolSizeAll));
  }

  /** The conversion never raises a price, and keeps exactly those that fit. */
  lemma LowBitsLess(d: nat)
    ensures Int64(d) <= d && (Int64(d) == d <==> d < 0x8000_0000_0000_0000)
  {
  }

  /** A price that does not fit: this one comes out at the minimum although the
      formula asks for the maximum. */
  lemma OverflowExample() returns (p: StakeParams, curDiff: nat, prev: nat, cur: nat)
    ensures StakeParamsOk(p) && prev > 0 && TargetPoolSizeAll(p) > 0 && curDiff < 0x8000_0000_0000_0000
    ensures Dcp0001Price(p, curDiff, prev, cur) > MaximumStakeDiff(p, 5) > p.minimumStakeDiff
    ensures CalcNextStakeDiffV2(p, 5, curDiff, prev, cur) == p.minimumStakeDiff
    ensures !Fits(Dcp0001Price(p, curDiff, prev, cur), MaximumStakeDiff(p, 5), p.minimumStakeDiff)
  {
    p := StakeParams(1000, 100, 1, 1, 10, 1, 1, 0, 1, 1, 2);
    curDiff, prev, cur := 0x4000_0000_0000_0000, 1, 2;
    assert Estimate(p, 5) == 1400;
    NextPriceIsDcp0001(p, 5, curDiff, prev, cur);
  }

  /** A larger pool never lowers the price if the higher price fits; and it does not
      lower it exactly if the low 64 bits do not drop, or the drop is clamped away. */
  lemma PriceMonotone(p: StakeParams, nextHeight: nat, curDiff: nat, prev: nat, cur: nat, cur': nat)
    requires StakeParamsOk(p) && prev > 0 && cur <= cur' && TargetPoolSizeAll(p) > 0 && prev * TargetPoolSizeAll(p) > 0
    ensures var d, d' := Dcp0001Price(p, curDiff, prev, cur), Dcp0001Price(p, curDiff, prev, cur');
            var max, min := MaximumStakeDiff(p, nextHeight), p.minimumStakeDiff;
            var price, price' := CalcNextStakeDiffV2(p, nextHeight, curDiff, prev, cur),
                                 CalcNextStakeDiffV2(p, nextHeight, curDiff, prev, cur');
            && (Fits(d', max, min) ==> price <= price')
            && (price <= price' <==> Int64(d) <= Int64(d') || Int64(d') >= max || Int64(d) <= min || max <= min)
  {
    MulLe(cur, cur', cur);
    MulLe(cur, cur', cur');
    MulLe(cur * cur, cur' * cur', curDiff);
    DivLe(curDiff * (cur * cur), curDiff * (cur' * cur'), prev * TargetPoolSizeAll(p));
    TwoStepDivision(p, curDiff, prev, cur);
    TwoStepDivision(p, curDiff, prev, cur');
    var d, d' := Dcp0001Price(p, curDiff, prev, cur), Dcp0001Price(p, curDiff, prev, cur');
    assert d <= d';
    LowBitsLess(d);
    LowBitsLess(d');
    hide Int64, Dcp0001Price, MaximumStakeDiff;
  }

  /** The price stays between its bounds, the lower one winning. */
  lemma PriceBounds(p: StakeParams, nextHeight: nat, curDiff: int, prev: nat, cur: nat)
    requires StakeParamsOk(p) && prev > 0 && TargetPoolSizeAll(p) > 0
    ensures var price := CalcNextStakeDiffV2(p, nextHeight, curDiff, prev, cur);
            var max := MaximumStakeDiff(p, nextHeight);
            p.minimumStakeDiff <= price && (price <= max || price == p.minimumStakeDiff)
  {
  }
}

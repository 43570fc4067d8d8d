/** wallet/difficulty.go: the difficulty rules read headers from an unattached
    branch where it has them and from the database below it.  Both sources
    together serve one history of headers, and every rule is a function of that
    history. */
module Difficulties {
  import opened Headers
  import opened Powers
  import opened Compacts
  import opened Retargets
  import opened StakePrices
  import opened MainChains
  import opened Wallets

  const ZERO_HASH: Hash := 0

  /** A read view of the database: recorded headers, and the main chain. */
  datatype Db = Db(headers: map<Hash, Header>, main: seq<Hash>)

  datatype Lookup = NotFound | Found(header: Header)

  function GetBlockHeader(db: Db, h: Hash): Lookup {
    if h in db.headers then Found(db.headers[h]) else NotFound
  }

  /** The header before `h`: from the branch if `h` is above its first block,
      otherwise from the database. */
  function ParentOf(db: Db, chain: seq<Header>, h: Header): Lookup {
    if |chain| > 0 && h.height > chain[0].height then
      (if h.height - chain[0].height - 1 < |chain| then Found(chain[h.height - chain[0].height - 1]) else NotFound)
    else GetBlockHeader(db, h.prev)
  }

  datatype Ancestor = Missing | NoSuch | At(header: Header)

  /** The ancestor of `h` at a height; none above `h` or below zero. */
  function AncestorAtHeight(db: Db, chain: seq<Header>, h: Header, height: int): Ancestor {
    if height == h.height then At(h)
    else if height > h.height || height < 0 then NoSuch
    else if |chain| > 0 && height >= chain[0].height then
      (if height - chain[0].height < |chain| then At(chain[height - chain[0].height]) else Missing)
    else if height < |db.main| && db.main[height] in db.headers then At(db.headers[db.main[height]])
    else Missing
  }

  /** A history: the header at every height from the genesis block up. */
  type History = seq<Header>

  function HistoryOf(w: World, hashes: seq<Hash>): (r: History)
    ensures |r| == |hashes|
    ensures forall i :: 0 <= i < |r| ==> r[i] == w.headerOf(hashes[i])
  {
    seq(|hashes|, i requires 0 <= i < |hashes| => w.headerOf(hashes[i]))
  }

  /** Heights count up from zero, and only the genesis block has no parent. */
  ghost predicate GoodHistory(hist: History) {
    && |hist| > 0
    && (forall k :: 0 <= k < |hist| ==> hist[k].height == k)
    && (forall k :: 0 <= k < |hist| ==> (hist[k].prev == ZERO_HASH <==> k == 0))
  }

  /** The lookups of `db` and `chain` follow the history `hist`. */
  ghost predicate Serves(db: Db, chain: seq<Header>, hist: History) {
    && GoodHistory(hist)
    && (forall k :: 0 < k < |hist| ==> ParentOf(db, chain, hist[k]) == Found(hist[k - 1]))
    && (forall k, h :: 0 <= k < h < |hist| ==> AncestorAtHeight(db, chain, hist[h], k) == At(hist[k]))
  }

  /** The headers of a branch, and the database, are consistent with a main chain
      that ends in `hashes`. */
  ghost predicate Records(w: World, db: Db, hashes: seq<Hash>, n: nat) {
    && n <= |hashes| && n <= |db.main|
    && forall k :: 0 <= k < n ==>
         db.main[k] == hashes[k] && hashes[k] in db.headers && db.headers[hashes[k]] == w.headerOf(hashes[k])
  }

  /** If the database covers the history below the branch, and the branch the
      rest, they serve it.  An empty branch needs the database to cover it all. */
  lemma ServedFrom(w: World, db: Db, chain: seq<Header>, hashes: seq<Hash>, n: nat)
    requires w.IsChain(hashes) && GoodHistory(HistoryOf(w, hashes))
    requires Records(w, db, hashes, n)
    requires if chain == [] then n == |hashes| else n > 0 && chain == HistoryOf(w, hashes)[n..]
    ensures Serves(db, chain, HistoryOf(w, hashes))
  {
    var hist := HistoryOf(w, hashes);
    forall k | 0 < k < |hist|
      ensures ParentOf(db, chain, hist[k]) == Found(hist[k - 1])
    {
      ServedParent(w, db, chain, hashes, n, k);
    }
    hide ParentOf, HistoryOf;
    forall k, h | 0 <= k < h < |hist|
      ensures AncestorAtHeight(db, chain, hist[h], k) == At(hist[k])
    {
      ServedAncestor(w, db, chain, hashes, n, k, h);
    }
  }

  lemma ServedParent(w: World, db: Db, chain: seq<Header>, hashes: seq<Hash>, n: nat, k: nat)
    requires w.IsChain(hashes) && GoodHistory(HistoryOf(w, hashes))
    requires Records(w, db, hashes, n) && 0 < k < |hashes|
    requires if chain == [] then n == |hashes| else n > 0 && chain == HistoryOf(w, hashes)[n..]
    ensures var hist := HistoryOf(w, hashes);
            ParentOf(db, chain, hist[k]) == Found(hist[k - 1])
  {
    assert w.IsParent(hashes[k - 1], hashes[k]);
  }

  lemma ServedAncestor(w: World, db: Db, chain: seq<Header>, hashes: seq<Hash>, n: nat, k: nat, h: nat)
    requires GoodHistory(HistoryOf(w, hashes))
    requires Records(w, db, hashes, n) && k < h < |hashes|
    requires if chain == [] then n == |hashes| else n > 0 && chain == HistoryOf(w, hashes)[n..]
    ensures var hist := HistoryOf(w, hashes);
            AncestorAtHeight(db, chain, hist[h], k) == At(hist[k])
  {
  }

  /** Validating before attaching: the wallet's database below the fork and the
      unattached branch above it serve the switched main chain. */
  lemma MixedServes(w: World, main: seq<Hash>, headers: map<Hash, Header>, c: seq<Hash>)
    requires MainOk(w, main) && HeadersOk(w, main, headers) && w.IsChain(c)
    requires (forall h :: h in c ==> h in w.known) && Extends(w, main, c) && NoZeroHash(w, main)
    ensures Serves(Db(headers, main), HistoryOf(w, c), HistoryOf(w, SwitchedMain(w, main, c)))
  {
    var main' := SwitchedMain(w, main, c);
    var f := ForkHeight(w, main, c);
    ConnectedMain(w, main, c);
    MainIsHistory(w, main');
    assert HistoryOf(w, main')[f..] == HistoryOf(w, c);
    ServedFrom(w, Db(headers, main), HistoryOf(w, c), main', f);
  }

  /** Validating after attaching: the database alone serves it. */
  lemma AttachedServes(w: World, main: seq<Hash>, headers: map<Hash, Header>)
    requires MainOk(w, main) && HeadersOk(w, main, headers) && NoZeroHash(w, main)
    ensures Serves(Db(headers, main), [], HistoryOf(w, main))
  {
    MainIsHistory(w, main);
    ServedFrom(w, Db(headers, main), [], main, |main|);
  }

  /** The two agree: whatever is read through the unattached branch before a
      switch is read from the database alone after it.  So the required bits and
      price, which the methods below show to be functions of the history served,
      are the same before and after. */
  lemma BeforeEqualsAfter(w: World, main: seq<Hash>, headers: map<Hash, Header>, c: seq<Hash>, headers': map<Hash, Header>)
    requires MainOk(w, main) && HeadersOk(w, main, headers) && w.IsChain(c)
    requires (forall h :: h in c ==> h in w.known) && Extends(w, main, c) && NoZeroHash(w, main)
    requires HeadersOk(w, SwitchedMain(w, main, c), headers')
    ensures var main' := SwitchedMain(w, main, c);
            var hist := HistoryOf(w, main');
            && Serves(Db(headers, main), HistoryOf(w, c), hist)
            && Serves(Db(headers', main'), [], hist)
            && SameLookups(Db(headers, main), HistoryOf(w, c), Db(headers', main'), [], hist)
  {
    hide ParentOf, AncestorAtHeight, HistoryOf;
    MixedServes(w, main, headers, c);
    ConnectedMain(w, main, c);
    var main' := SwitchedMain(w, main, c);
    AttachedServes(w, main', headers');
    ServedAlike(Db(headers, main), HistoryOf(w, c), Db(headers', main'), [], HistoryOf(w, main'));
  }

  /** Two sources answer every lookup of a history's headers alike. */
  ghost predicate SameLookups(db: Db, chain: seq<Header>, db': Db, chain': seq<Header>, hist: History) {
    && (forall k :: 0 < k < |hist| ==> ParentOf(db, chain, hist[k]) == ParentOf(db', chain', hist[k]))
    && (forall k, h :: 0 <= k < h < |hist| ==>
         AncestorAtHeight(db, chain, hist[h], k) == AncestorAtHeight(db', chain', hist[h], k))
  }

  lemma ServedAlike(db: Db, chain: seq<Header>, db': Db, chain': seq<Header>, hist: History)
    requires Serves(db, chain, hist) && Serves(db', chain', hist)
    ensures SameLookups(db, chain, db', chain', hist)
  {
    forall k | 0 < k < |hist|
      ensures ParentOf(db, chain, hist[k]) == ParentOf(db', chain', hist[k])
    {
      assert ParentOf(db, chain, hist[k]) == Found(hist[k - 1]) == ParentOf(db', chain', hist[k]);
    }
    forall k, h | 0 <= k < h < |hist|
      ensures AncestorAtHeight(db, chain, hist[h], k) == AncestorAtHeight(db', chain', hist[h], k)
    {
      assert AncestorAtHeight(db, chain, hist[h], k) == At(hist[k]) == AncestorAtHeight(db', chain', hist[h], k);
    }
  }

  /** No known block has the zero hash, which is what the genesis block names. */
  ghost predicate NoZeroHash(w: World, main: seq<Hash>)
    requires |main| > 0
  {
    ZERO_HASH !in w.known && w.Prev(main[0]) == ZERO_HASH
  }

  lemma MainIsHistory(w: World, main: seq<Hash>)
    requires MainOk(w, main) && NoZeroHash(w, main)
    ensures GoodHistory(HistoryOf(w, main))
  {
    MainHeights(w, main);
    forall k | 0 < k < |main|
      ensures w.Prev(main[k]) != ZERO_HASH
    {
      assert w.IsParent(main[k - 1], main[k]) && main[k - 1] in main;
    }
  }

  // ----- proof of work -----

  /** The bits of the last block at or below `k` that did not use the minimum
      difficulty rule. */
  function LastRegularBits(p: PowParams, hist: History, k: nat): nat
    requires k < |hist| && p.workDiffWindowSize * p.workDiffWindows > 0
  {
    if k % (p.workDiffWindowSize * p.workDiffWindows) != 0 && hist[k].bits == p.powLimitBits && k > 0
    then LastRegularBits(p, hist, k - 1)
    else hist[k].bits
  }

  /** The height `n` windows below `k`, staying at the genesis block. */
  function Back(k: nat, n: nat): nat {
    if n <= k then k - n else 0
  }

  /** The time a window took; a window that reaches the genesis block counts as
      on target. */
  function WindowTime(p: PowParams, hist: History, k: nat, window: nat): int
    requires k < |hist|
  {
    var older := Back(k, (window + 1) * p.workDiffWindowSize);
    if older == 0 then p.targetTimespan
    else hist[Back(k, window * p.workDiffWindowSize)].timestamp - hist[older].timestamp
  }

  function WindowTimes(p: PowParams, hist: History, k: nat, n: nat): seq<int>
    requires k < |hist|
  {
    seq(n, i requires 0 <= i < n => WindowTime(p, hist, k, i))
  }

  /** The required bits of the block after `hist[k]`. */
  function RequiredBits(p: PowParams, hist: History, k: nat, newBlockTime: int): nat
    requires k < |hist| && PowParamsOk(p)
  {
    WeightsPositive(p, p.workDiffWindows);
    MulPositive(p.workDiffWindowSize, p.workDiffWindows);
    if (k + 1) % p.workDiffWindowSize != 0 then
      if !p.reduceMinDifficulty then hist[k].bits
      else if newBlockTime > hist[k].timestamp + p.minDiffReductionTime then p.powLimitBits
      else LastRegularBits(p, hist, k)
    else
      BigToCompact(NextTarget(p, WindowTimes(p, hist, k, p.workDiffWindows), CompactToBig(hist[k].bits)))
  }

  datatype Bits = DbError | Required(bits: nat)

  method FindPrevTestNetDifficulty(p: PowParams, db: Db, chain: seq<Header>, ghost hist: History, ghost k: nat, header: Header)
    returns (r: Bits)
    requires PowParamsOk(p) && Serves(db, chain, hist) && k < |hist| && header == hist[k]
    ensures p.workDiffWindowSize * p.workDiffWindows > 0
    ensures r == Required(LastRegularBits(p, hist, k))
  {
    MulPositive(p.workDiffWindowSize, p.workDiffWindows);
    var blocksPerRetarget := p.workDiffWindowSize * p.workDiffWindows;
    var h := header;
    ghost var i: nat := k;
    while h.height % blocksPerRetarget != 0 && h.bits == p.powLimitBits
      invariant i < |hist| && h == hist[i]
      invariant LastRegularBits(p, hist, i) == LastRegularBits(p, hist, k)
      decreases i
    {
      if h.prev == ZERO_HASH {
        return Required(p.powLimitBits);
      }
      var parent := ParentOf(db, chain, h);
      if parent.NotFound? {
        return DbError;
      }
      h := parent.header;
      i := i - 1;
    }
    r := Required(h.bits);
  }

  /** Collects the change of every window, walking back one header at a time and
      staying at the genesis block.  However short the history, all windows are
      filled. */
  method CollectWindows(p: PowParams, db: Db, chain: seq<Header>, ghost hist: History, ghost k: nat, header: Header)
    returns (ok: bool, windowChanges: array<int>, weights: nat)
    requires PowParamsOk(p) && Serves(db, chain, hist) && k < |hist| && header == hist[k]
    ensures ok && fresh(windowChanges) && windowChanges.Length == p.workDiffWindows
    ensures forall i :: 0 <= i < p.workDiffWindows ==> windowChanges[i] == WindowChange(p, i, WindowTime(p, hist, k, i))
    ensures weights == Weights(p, p.workDiffWindows)
  {
    hide WindowChange, Weight, Weights, WindowTime, Serves, ParentOf;
    GenesisUp(db, chain, hist, p);
    var size := p.workDiffWindowSize;
    var nodesToTraverse := size * p.workDiffWindows;
    windowChanges := new int[p.workDiffWindows](_ => 0);
    var windowPeriod := 0;
    weights := 0;
    var oldHeader := header;
    var recentTime := header.timestamp;
    var i := 0;
    ghost var j := 0;
    while true
      invariant 0 <= i == windowPeriod * size + j && 0 <= j <= size && windowPeriod < p.workDiffWindows
      invariant j == 0 <==> i == 0
      invariant k < |hist| && oldHeader == hist[Back(k, i)]
      invariant recentTime == hist[Back(k, windowPeriod * size)].timestamp
      invariant weights == Weights(p, windowPeriod)
      invariant forall w :: 0 <= w < windowPeriod ==> windowChanges[w] == WindowChange(p, w, WindowTime(p, hist, k, w))
      decreases p.workDiffWindows - windowPeriod, size - j
    {
      InWindow(windowPeriod, size, j);
      LastNode(p.workDiffWindows, windowPeriod, size, j);
      if i % size == 0 && i != 0 {
        var olderTime := oldHeader.timestamp;
        var timeDifference := recentTime - olderTime;
        if oldHeader.height == 0 {
          timeDifference := p.targetTimespan;
        }
        WindowEnds(p, db, chain, hist, k, windowPeriod, timeDifference);
        windowChanges[windowPeriod], weights := AddWindow(p, windowPeriod, timeDifference, weights);
        windowPeriod := windowPeriod + 1;
        recentTime := olderTime;
        j := 0;
      }
      if i == nodesToTraverse {
        break;
      }
      ok, oldHeader := StepBack(db, chain, hist, k, i, oldHeader);
      if !ok {
        return;
      }
      i := i + 1;
      j := j + 1;
    }
    ok := true;
  }

  lemma GenesisUp(db: Db, chain: seq<Header>, hist: History, p: PowParams)
    requires Serves(db, chain, hist)
    ensures (forall k :: 0 <= k < |hist| ==> hist[k].height == k) && Weights(p, 0) == 0
  {
  }

  /** The previous header, staying at the genesis block. */
  method StepBack(db: Db, chain: seq<Header>, ghost hist: History, ghost k: nat, ghost i: nat, header: Header)
    returns (ok: bool, prev: Header)
    requires Serves(db, chain, hist) && k < |hist| && header == hist[Back(k, i)]
    ensures ok && prev == hist[Back(k, i + 1)]
  {
    if header.height == 0 {
      return true, header;
    }
    ghost var b := Back(k, i);
    assert b == header.height;
    assert ParentOf(db, chain, hist[b]) == Found(hist[b - 1]);
    var parent := ParentOf(db, chain, header);
    if parent.NotFound? {
      return false, header;
    }
    ok, prev := true, parent.header;
  }

  lemma WindowEnds(p: PowParams, db: Db, chain: seq<Header>, hist: History, k: nat, window: nat, time: int)
    requires Serves(db, chain, hist) && k < |hist|
    requires var older := hist[Back(k, (window + 1) * p.workDiffWindowSize)];
             time == if older.height == 0 then p.targetTimespan
                     else hist[Back(k, window * p.workDiffWindowSize)].timestamp - older.timestamp
    ensures time == WindowTime(p, hist, k, window)
  {
  }

  /** The last node is reached with the end of the last window. */
  lemma LastNode(windows: nat, w: nat, size: nat, j: nat)
    requires w < windows && j <= size && size > 0
    ensures w * size + j == size * windows <==> j == size && w + 1 == windows
  {
    MulLe(w + 1, windows, size);
    if w + 2 <= windows {
      MulLe(w + 2, windows, size);
    }
  }

  lemma InWindow(w: nat, size: nat, j: nat)
    requires size > 0 && j <= size
    ensures (w * size + j) % size == if j == size then 0 else j
    ensures (w + 1) * size == w * size + size
  {
    if j == size {
      FloorIs(w * size + j, size, w + 1);
    } else {
      FloorIs(w * size + j, size, w);
    }
  }

  /** One window's share and weight, in fixed point. */
  method AddWindow(p: PowParams, window: nat, time: int, weights: nat) returns (change: int, total: nat)
    requires p.targetTimespan > 0 && window < p.workDiffWindows && weights == Weights(p, window)
    ensures change == WindowChange(p, window, time) && total == Weights(p, window + 1)
  {
    var padded := time * PADDING;
    var windowAdjusted := padded / p.targetTimespan;
    var shift := (p.workDiffWindows - window) * p.workDiffAlpha;
    change := windowAdjusted * Pow2(shift);
    total := weights + Pow2(shift);
  }

  /** The required bits of the block after `header`, which is `hist[k]`. */
  method NextRequiredPoWDifficulty(p: PowParams, db: Db, chain: seq<Header>, ghost hist: History, ghost k: nat,
                                   header: Header, newBlockTime: int) returns (r: Bits)
    requires PowParamsOk(p) && Serves(db, chain, hist) && k < |hist| && header == hist[k]
    ensures r == Required(RequiredBits(p, hist, k, newBlockTime))
  {
    var oldDiff := header.bits;
    if (header.height + 1) % p.workDiffWindowSize != 0 {
      if p.reduceMinDifficulty {
        var allowMinTime := header.timestamp + p.minDiffReductionTime;
        if newBlockTime > allowMinTime {
          return Required(p.powLimitBits);
        }
        r := FindPrevTestNetDifficulty(p, db, chain, hist, k, header);
        return;
      }
      return Required(oldDiff);
    }
    var ok, windowChanges, weights := CollectWindows(p, db, chain, hist, k, header);
    if !ok {
      return DbError;
    }
    WeightsPositive(p, p.workDiffWindows);
    ghost var times := WindowTimes(p, hist, k, p.workDiffWindows);
    var weightedSum := SumWindows(p, windowChanges, times);
    var next := RetargetFrom(p, weightedSum, weights, CompactToBig(oldDiff), times);
    r := Required(BigToCompact(next));
  }

  method SumWindows(p: PowParams, windowChanges: array<int>, ghost times: seq<int>) returns (sum: int)
    requires p.targetTimespan > 0 && windowChanges.Length == |times|
    requires forall i :: 0 <= i < |times| ==> windowChanges[i] == WindowChange(p, i, times[i])
    ensures sum == WeightedSum(p, times)
  {
    sum := 0;
    var i := 0;
    assert times[..0] == [];
    while i < windowChanges.Length
      invariant 0 <= i <= |times| && sum == WeightedSum(p, times[..i])
    {
      assert times[..i + 1][..i] == times[..i];
      hide WindowChange;
      sum := sum + windowChanges[i];
      i := i + 1;
    }
    assert times[..i] == times;
  }

  /** The division by the weights, the scaling, and the limits. */
  method RetargetFrom(p: PowParams, weightedSum: int, weights: nat, oldTarget: int, ghost times: seq<int>) returns (next: int)
    requires p.targetTimespan > 0 && p.retargetAdjustmentFactor > 0
    requires weights == Weights(p, |times|) > 0 && weightedSum == WeightedSum(p, times)
    ensures next == NextTarget(p, times, oldTarget)
  {
    var nextDiffMin := oldTarget / p.retargetAdjustmentFactor;
    var nextDiffMax := oldTarget * p.retargetAdjustmentFactor;
    next := weightedSum / weights;
    next := next * oldTarget;
    next := next / PADDING;
    if oldTarget == 0 {
    } else if next == 0 {
      next := p.powLimit;
    } else if next > nextDiffMax {
      next := nextDiffMax;
    } else if next < nextDiffMin {
      next := nextDiffMin;
    }
    if next > p.powLimit {
      next := p.powLimit;
    }
  }

  // ----- a history off target -----

  /** The time of the header `window` windows below the top, when the windows took
      the times off target that cancel out. */
  function Stamp(p: PowParams, m: nat, base: int, window: int): int {
    if window <= 0 then base
    else if window == 1 then base - (p.targetTimespan + m)
    else base - (p.targetTimespan + m) - (p.targetTimespan - Pow2(p.workDiffAlpha) * m) - (window - 2) * p.targetTimespan
  }

  function TopHeight(p: PowParams): nat
    requires p.workDiffWindowSize > 0
  {
    (p.workDiffWindows + 1) * p.workDiffWindowSize - 1
  }

  function CancellingHistory(p: PowParams, m: nat, base: int, bits: nat): History
    requires p.workDiffWindowSize > 0
  {
    seq(TopHeight(p) + 1, h requires 0 <= h <= TopHeight(p) =>
      Header(h, h, bits, 0, Stamp(p, m, base, (TopHeight(p) - h) / p.workDiffWindowSize), 0, 0))
  }

  /** A history of headers whose two newest windows are off target and whose
      required target is nevertheless the old one.  There is one for the parameters
      of every recognized network, where alpha is one and four divides the timespan. */
  lemma CancellingHeaders(p: PowParams, m: nat, base: int, bits: nat, newBlockTime: int)
    requires PowParamsOk(p) && p.workDiffWindows >= 2 && p.workDiffWindowSize >= 2 && p.workDiffAlpha < 32
    requires m > 0 && p.targetTimespan == Pow2(p.workDiffAlpha + 1) * m
    requires 0 < CompactToBig(bits) <= p.powLimit
    ensures var hist, k := CancellingHistory(p, m, base, bits), TopHeight(p);
            && GoodHistory(hist) && |hist| == k + 1
            && WindowTime(p, hist, k, 0) != p.targetTimespan && WindowTime(p, hist, k, 1) != p.targetTimespan
            && RequiredBits(p, hist, k, newBlockTime) == BigToCompact(CompactToBig(bits))
  {
    hide GoodHistory, WindowTime, Stamp, CompactToBig, BigToCompact, OffTarget, ClampTarget, PreClamp, Pow2, Weights;
    hide CancellingHistory, WindowTimes;
    CancellingIsHistory(p, m, base, bits);
    CancellingWindows(p, m, CompactToBig(bits));
    CancellingTime(p, m, base, bits, 0);
    CancellingTime(p, m, base, bits, 1);
    CancellingTimes(p, m, base, bits);
    FloorIs(TopHeight(p) + 1, p.workDiffWindowSize, p.workDiffWindows + 1);
    OldTargetKept(p, CompactToBig(bits));
  }

  lemma CancellingIsHistory(p: PowParams, m: nat, base: int, bits: nat)
    requires p.workDiffWindowSize > 0
    ensures var hist := CancellingHistory(p, m, base, bits);
            GoodHistory(hist) && |hist| == TopHeight(p) + 1 && hist[TopHeight(p)].bits == bits
  {
    hide Stamp;
  }

  lemma CancellingTimes(p: PowParams, m: nat, base: int, bits: nat)
    requires PowParamsOk(p) && p.workDiffWindows >= 2 && p.workDiffWindowSize >= 2
    requires |CancellingHistory(p, m, base, bits)| == TopHeight(p) + 1
    ensures WindowTimes(p, CancellingHistory(p, m, base, bits), TopHeight(p), p.workDiffWindows) == OffTarget(p, m)
  {
    hide CancellingHistory, WindowTime, Pow2;
    var hist := CancellingHistory(p, m, base, bits);
    forall w | 0 <= w < p.workDiffWindows
      ensures WindowTime(p, hist, TopHeight(p), w) == OffTarget(p, m)[w]
    {
      CancellingTime(p, m, base, bits, w);
    }
  }

  lemma OldTargetKept(p: PowParams, target: nat)
    requires PowParamsOk(p) && 0 < target <= p.powLimit
    ensures ClampTarget(p, target, target) == target
  {
    MulLe(1, p.retargetAdjustmentFactor, target);
    FloorBounds(target, p.retargetAdjustmentFactor);
    MulLe(1, p.retargetAdjustmentFactor, target / p.retargetAdjustmentFactor);
  }

  lemma CancellingTime(p: PowParams, m: nat, base: int, bits: nat, w: nat)
    requires PowParamsOk(p) && p.workDiffWindows >= 2 && p.workDiffWindowSize >= 2 && w < p.workDiffWindows
    ensures WindowTime(p, CancellingHistory(p, m, base, bits), TopHeight(p), w) == OffTarget(p, m)[w]
  {
    hide Pow2;
    var size, k := p.workDiffWindowSize, TopHeight(p);
    MulLe(w + 2, p.workDiffWindows + 1, size);
    assert (w + 2) * size == w * size + 2 * size && (w + 1) * size == w * size + size;
    StampAt(p, m, base, bits, w);
    StampAt(p, m, base, bits, w + 1);
    hide CancellingHistory;
    assert (w - 1) * p.targetTimespan == (w - 2) * p.targetTimespan + p.targetTimespan;
  }

  lemma StampAt(p: PowParams, m: nat, base: int, bits: nat, w: nat)
    requires p.workDiffWindowSize > 0 && w * p.workDiffWindowSize <= TopHeight(p)
    ensures Back(TopHeight(p), w * p.workDiffWindowSize) == TopHeight(p) - w * p.workDiffWindowSize
    ensures CancellingHistory(p, m, base, bits)[TopHeight(p) - w * p.workDiffWindowSize].timestamp == Stamp(p, m, base, w)
  {
    hide Stamp;
    DivExact(w, p.workDiffWindowSize);
  }

  // ----- ticket price -----

  /** Tickets bought in block `k` and the `n - 1` blocks before it. */
  function TicketsBought(hist: History, k: nat, n: nat): nat
    requires k < |hist|
  {
    if n == 0 then 0
    else hist[k].freshStake + if k == 0 then 0 else TicketsBought(hist, k - 1, n - 1)
  }

  datatype Count = CountError | Counted(n: nat)

  method SumPurchasedTickets(db: Db, chain: seq<Header>, ghost hist: History, ghost k: nat, start: Header, numToSum: nat)
    returns (r: Count)
    requires Serves(db, chain, hist) && k < |hist| && start == hist[k]
    ensures r == Counted(TicketsBought(hist, k, numToSum))
  {
    var purchased := 0;
    var h := start;
    var traversed := 0;
    ghost var i: nat := k;
    while traversed < numToSum
      invariant 0 <= traversed <= numToSum && i < |hist| && h == hist[i]
      invariant purchased + TicketsBought(hist, i, numToSum - traversed) == TicketsBought(hist, k, numToSum)
    {
      purchased := purchased + h.freshStake;
      if h.prev == ZERO_HASH {
        break;
      }
      assert ParentOf(db, chain, hist[i]) == Found(hist[i - 1]);
      var parent := ParentOf(db, chain, h);
      if parent.NotFound? {
        return CountError;
      }
      h := parent.header;
      i := i - 1;
      traversed := traversed + 1;
    }
    r := Counted(purchased);
  }

  /** The required ticket price of the block after `hist[k]`. */
  function RequiredPrice(p: StakeParams, hist: History, k: nat): int
    requires k < |hist| && StakeParamsOk(p)
  {
    MulPositive(p.ticketsPerBlock, p.ticketPoolSize + p.ticketMaturity);
    var nextHeight := k + 1;
    if nextHeight < p.coinbaseMaturity + 1 then p.minimumStakeDiff
    else if nextHeight % p.stakeDiffWindowSize != 0 then hist[k].sbits
    else
      var prev := nextHeight - p.stakeDiffWindowSize - 1;
      var prevAll := if prev < 0 then 0 else hist[prev].poolSize + TicketsBought(hist, prev, p.ticketMaturity);
      var curAll := hist[k].poolSize + TicketsBought(hist, k, p.ticketMaturity);
      if prevAll == 0 then hist[k].sbits
      else CalcNextStakeDiffV2(p, nextHeight, hist[k].sbits, prevAll, curAll)
  }

  datatype Price = PriceError | Priced(price: int)

  method NextRequiredDCP0001PoSDifficulty(p: StakeParams, db: Db, chain: seq<Header>, ghost hist: History, ghost k: nat,
                                          curHeader: Header) returns (r: Price)
    requires StakeParamsOk(p) && Serves(db, chain, hist) && k < |hist| && curHeader == hist[k]
    ensures r == Priced(RequiredPrice(p, hist, k))
  {
    MulPositive(p.ticketsPerBlock, p.ticketPoolSize + p.ticketMaturity);
    var nextHeight := curHeader.height + 1;
    var stakeDiffStartHeight := p.coinbaseMaturity + 1;
    if nextHeight < stakeDiffStartHeight {
      return Priced(p.minimumStakeDiff);
    }
    var curDiff := curHeader.sbits;
    if nextHeight % p.stakeDiffWindowSize != 0 {
      return Priced(curDiff);
    }
    var prevRetargetHeight := nextHeight - p.stakeDiffWindowSize - 1;
    hide MaximumStakeDiff;
    var prevPool := PoolAt(p, db, chain, hist, k, curHeader, prevRetargetHeight);
    if prevPool.CountError? {
      return PriceError;
    }
    var prevPoolSizeAll := prevPool.n;
    if prevPoolSizeAll == 0 {
      return Priced(curDiff);
    }
    var immature := SumPurchasedTickets(db, chain, hist, k, curHeader, p.ticketMaturity);
    if immature.CountError? {
      return PriceError;
    }
    var curPoolSizeAll := curHeader.poolSize + immature.n;
    r := Priced(CalcNextStakeDiffV2(p, nextHeight, curDiff, prevPoolSizeAll, curPoolSizeAll));
  }

  /** The ticket pool and the immature tickets at an ancestor's height; nothing
      below the genesis block. */
  method PoolAt(p: StakeParams, db: Db, chain: seq<Header>, ghost hist: History, ghost k: nat, header: Header, height: int)
    returns (r: Count)
    requires Serves(db, chain, hist) && k < |hist| && header == hist[k] && height < k
    ensures r == Counted(if height < 0 then 0 else hist[height].poolSize + TicketsBought(hist, height, p.ticketMaturity))
  {
    var prev := AncestorAtHeight(db, chain, header, height);
    assert prev == if height < 0 then NoSuch else At(hist[height]);
    match prev {
      case Missing =>
        return CountError;
      case NoSuch =>
        return Counted(0);
      case At(h) =>
        r := SumPurchasedTickets(db, chain, hist, height, h, p.ticketMaturity);
        if r.Counted? {
          r := Counted(h.poolSize + r.n);
        }
    }
  }

  // ----- validation -----

  datatype Net = MainNet | TestNet | SimNet | OtherNet

  datatype Params = Params(pow: PowParams, stake: StakeParams, net: Net)

  /** DCP0001 is active from height zero on every recognized network. */
  predicate Dcp0001Active(p: Params, height: nat) {
    p.net != OtherNet
  }

  /** The block at height `k` has the difficulty and price its history requires,
      and performed its work (`powOk`). */
  ghost predicate BlockOk(p: Params, powOk: Header -> bool, hist: History, k: nat)
    requires 0 < k < |hist| && PowParamsOk(p.pow) && StakeParamsOk(p.stake)
  {
    && hist[k].bits == RequiredBits(p.pow, hist, k - 1, hist[k].timestamp)
    && powOk(hist[k])
    && (Dcp0001Active(p, k) ==> hist[k].sbits == RequiredPrice(p.stake, hist, k - 1))
  }

  /** `Invalid` carries the rest of the branch from its first invalid block. */
  datatype Verdict = Valid | Invalid(rest: seq<Header>) | NotConnected | DbFailure

  predicate InMainChain(db: Db, h: Hash) {
    h in db.headers && db.headers[h].height < |db.main| && db.main[db.headers[h].height] == h
  }

  /** The branch is the top of the history. */
  ghost predicate IsTop(chain: seq<Header>, hist: History) {
    0 < |hist| - |chain| && chain == hist[|hist| - |chain|..]
  }

  /** `rest` is the top of the history from the first invalid block at or above
      height `from`. */
  ghost predicate FirstInvalid(p: Params, powOk: Header -> bool, hist: History, from: nat, rest: seq<Header>)
    requires 0 < from && PowParamsOk(p.pow) && StakeParamsOk(p.stake)
  {
    && IsTop(rest, hist) && 0 < |rest| <= |hist| - from
    && !BlockOk(p, powOk, hist, |hist| - |rest|)
    && AllOk(p, powOk, hist, from, |hist| - |rest|)
  }

  /** Validates a branch that is not attached yet, from block `start` on.  It is
      valid exactly if every block has what its history requires; otherwise the
      blocks returned begin with the first that has not. */
  method ValidateHeaderChainDifficulties(p: Params, powOk: Header -> bool, db: Db, chain: seq<Header>, start: nat,
                                         ghost hist: History) returns (v: Verdict)
    requires PowParamsOk(p.pow) && StakeParamsOk(p.stake) && Serves(db, chain, hist)
    requires chain != [] && IsTop(chain, hist) && start <= |chain|
    ensures !v.DbFailure? && (v.NotConnected? <==> !InMainChain(db, chain[0].prev))
    ensures v.Valid? ==> AllOk(p, powOk, hist, |hist| - |chain| + start, |hist|)
    ensures v.Invalid? ==> FirstInvalid(p, powOk, hist, |hist| - |chain| + start, v.rest)
  {
    hide BlockOk, AllOk, Serves, PowParamsOk, StakeParamsOk, IsTop, FirstInvalid, InMainChain;
    if !InMainChain(db, chain[0].prev) {
      return NotConnected;
    }
    var parent := NotFound;
    var idx := start;
    NonePassed(p, powOk, chain, hist, start);
    hide Passed, ParentKnown;
    while idx < |chain|
      invariant start <= idx <= |chain|
      invariant ParentKnown(chain, hist, idx, parent) && Passed(p, powOk, chain, hist, start, idx)
    {
      v := ValidateAt(p, powOk, db, chain, idx, parent, hist);
      if !v.Valid? {
        FoundInvalid(p, powOk, chain, hist, start, idx);
        return;
      }
      OnePassed(p, powOk, chain, hist, start, idx);
      parent := Found(chain[idx]);
      idx := idx + 1;
    }
    AllPassed(p, powOk, chain, hist, start);
    v := Valid;
  }

  /** Every block of the branch from `start` up to `idx` has what it needs. */
  ghost predicate Passed(p: Params, powOk: Header -> bool, chain: seq<Header>, hist: History, start: nat, idx: nat)
    requires PowParamsOk(p.pow) && StakeParamsOk(p.stake) && IsTop(chain, hist) && idx <= |chain|
  {
    AllOk(p, powOk, hist, |hist| - |chain| + start, |hist| - |chain| + idx)
  }

  /** `parent` is the header before block `idx`, if it was looked up already. */
  ghost predicate ParentKnown(chain: seq<Header>, hist: History, idx: nat, parent: Lookup)
    requires IsTop(chain, hist) && idx <= |chain|
  {
    parent.NotFound? || parent == Found(hist[|hist| - |chain| + idx - 1])
  }

  lemma NonePassed(p: Params, powOk: Header -> bool, chain: seq<Header>, hist: History, start: nat)
    requires PowParamsOk(p.pow) && StakeParamsOk(p.stake) && IsTop(chain, hist) && start <= |chain|
    ensures Passed(p, powOk, chain, hist, start, start) && ParentKnown(chain, hist, start, NotFound)
  {
  }

  lemma OnePassed(p: Params, powOk: Header -> bool, chain: seq<Header>, hist: History, start: nat, idx: nat)
    requires PowParamsOk(p.pow) && StakeParamsOk(p.stake) && IsTop(chain, hist) && start <= idx < |chain|
    requires Passed(p, powOk, chain, hist, start, idx) && BlockOk(p, powOk, hist, |hist| - |chain| + idx)
    ensures Passed(p, powOk, chain, hist, start, idx + 1)
    ensures ParentKnown(chain, hist, idx + 1, Found(chain[idx]))
  {
    hide BlockOk, PowParamsOk, StakeParamsOk;
  }

  lemma AllPassed(p: Params, powOk: Header -> bool, chain: seq<Header>, hist: History, start: nat)
    requires PowParamsOk(p.pow) && StakeParamsOk(p.stake) && IsTop(chain, hist) && start <= |chain|
    requires Passed(p, powOk, chain, hist, start, |chain|)
    ensures 0 < |hist| - |chain|
    ensures AllOk(p, powOk, hist, |hist| - |chain| + start, |hist|)
  {
  }

  lemma FoundInvalid(p: Params, powOk: Header -> bool, chain: seq<Header>, hist: History, start: nat, idx: nat)
    requires PowParamsOk(p.pow) && StakeParamsOk(p.stake)
    requires IsTop(chain, hist) && start <= idx < |chain| && Passed(p, powOk, chain, hist, start, idx)
    requires !BlockOk(p, powOk, hist, |hist| - |chain| + idx)
    ensures 0 < |hist| - |chain| && FirstInvalid(p, powOk, hist, |hist| - |chain| + start, chain[idx..])
  {
    hide BlockOk, PowParamsOk, StakeParamsOk;
  }

  /** Validates block `idx` of the branch. */
  method ValidateAt(p: Params, powOk: Header -> bool, db: Db, chain: seq<Header>, idx: nat, parent: Lookup,
                    ghost hist: History) returns (v: Verdict)
    requires PowParamsOk(p.pow) && StakeParamsOk(p.stake) && Serves(db, chain, hist)
    requires idx < |chain| && IsTop(chain, hist)
    requires ParentKnown(chain, hist, idx, parent)
    ensures v == if BlockOk(p, powOk, hist, |hist| - |chain| + idx) then Valid else Invalid(chain[idx..])
  {
    ghost var k := |hist| - |chain| + idx;
    var h := chain[idx];
    var prev := parent;
    HeightIs(db, chain, hist, k);
    hide BlockOk, Serves, PowParamsOk, StakeParamsOk;
    if parent.NotFound? && h.height != 0 {
      prev := PrevInBranch(db, chain, idx, hist);
      if prev.NotFound? {
        return DbFailure;
      }
    }
    v := ValidateBlock(p, powOk, db, chain, hist, k, prev.header, h);
    if v.Invalid? {
      v := Invalid(chain[idx..]);
    }
  }

  ghost predicate AllOk(p: Params, powOk: Header -> bool, hist: History, from: nat, to: nat)
    requires 0 < from && to <= |hist| && PowParamsOk(p.pow) && StakeParamsOk(p.stake)
  {
    forall k :: from <= k < to ==> BlockOk(p, powOk, hist, k)
  }

  lemma HeightIs(db: Db, chain: seq<Header>, hist: History, k: nat)
    requires Serves(db, chain, hist) && 0 < k < |hist|
    ensures hist[k].height == k
  {
  }

  /** The header before block `idx` of a branch. */
  method PrevInBranch(db: Db, chain: seq<Header>, idx: nat, ghost hist: History) returns (parent: Lookup)
    requires Serves(db, chain, hist) && idx < |chain| && IsTop(chain, hist)
    ensures parent == Found(hist[|hist| - |chain| + idx - 1])
  {
    ghost var low := |hist| - |chain|;
    assert ParentOf(db, chain, hist[low]) == Found(hist[low - 1]);
    if idx == 0 {
      parent := GetBlockHeader(db, chain[idx].prev);
    } else {
      parent := Found(chain[idx - 1]);
    }
  }

  method ValidateBlock(p: Params, powOk: Header -> bool, db: Db, chain: seq<Header>, ghost hist: History, ghost k: nat,
                       parent: Header, h: Header) returns (v: Verdict)
    requires PowParamsOk(p.pow) && StakeParamsOk(p.stake) && Serves(db, chain, hist)
    requires 0 < k < |hist| && parent == hist[k - 1] && h == hist[k]
    ensures v == if BlockOk(p, powOk, hist, k) then Valid else Invalid([h])
  {
    var bits := NextRequiredPoWDifficulty(p.pow, db, chain, hist, k - 1, parent, h.timestamp);
    hide RequiredBits, RequiredPrice;
    if bits.DbError? {
      return DbFailure;
    }
    if h.bits != bits.bits || !powOk(h) {
      return Invalid([h]);
    }
    if Dcp0001Active(p, h.height) {
      var sdiff := NextRequiredDCP0001PoSDifficulty(p.stake, db, chain, hist, k - 1, parent);
      if sdiff.PriceError? {
        return DbFailure;
      }
      if h.sbits != sdiff.price {
        return Invalid([h]);
      }
    }
    v := Valid;
  }
}

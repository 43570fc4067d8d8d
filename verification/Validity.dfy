/** Validating a branch before a switch (spv/sync.go), and what that means for the main
    chain: every block keeps the difficulty and price its history requires, since these
    depend on the blocks below it alone. */
module Validity {
  import opened Headers
  import opened RootedTrees
  import opened MainChains
  import opened Wallets
  import opened Powers
  import opened Compacts
  import opened Retargets
  import opened StakePrices
  import opened Difficulties

  /** The network's parameters, and the test of performed work. */
  datatype Rules = Rules(params: Params, powOk: Header -> bool)

  ghost predicate RulesOk(r: Rules) {
    PowParamsOk(r.params.pow) && StakeParamsOk(r.params.stake)
  }

  /** Every block above the genesis block is valid for its history. */
  ghost predicate ChainValid(r: Rules, w: World, main: seq<Hash>) {
    && RulesOk(r) && |main| > 0 && NoZeroHash(w, main)
    && AllOk(r.params, r.powOk, HistoryOf(w, main), 1, |main|)
  }

  /** So is every block of a branch, for the history it would have after a switch. */
  ghost predicate BranchValid(r: Rules, w: World, main: seq<Hash>, c: seq<Hash>)
    requires RulesOk(r)
  {
    && |c| > 0 && ForkHeight(w, main, c) > 0
    && AllOk(r.params, r.powOk, HistoryOf(w, SwitchedMain(w, main, c)), ForkHeight(w, main, c), |SwitchedMain(w, main, c)|)
  }

  // ----- only the blocks below matter -----

  lemma {:induction false} RegularBitsBelow(p: PowParams, hist: History, hist': History, k: nat)
    requires k < |hist| && k < |hist'| && hist[..k + 1] == hist'[..k + 1]
    requires p.workDiffWindowSize * p.workDiffWindows > 0
    ensures LastRegularBits(p, hist, k) == LastRegularBits(p, hist', k)
  {
    assert hist[k] == hist[..k + 1][k] == hist'[k];
    if k > 0 {
      assert hist[..k] == hist[..k + 1][..k] == hist'[..k];
      RegularBitsBelow(p, hist, hist', k - 1);
    }
  }

  lemma {:induction false} TicketsBelow(hist: History, hist': History, k: nat, n: nat)
    requires k < |hist| && k < |hist'| && hist[..k + 1] == hist'[..k + 1]
    ensures TicketsBought(hist, k, n) == TicketsBought(hist', k, n)
  {
    assert hist[k] == hist[..k + 1][k] == hist'[k];
    if k > 0 && n > 0 {
      assert hist[..k] == hist[..k + 1][..k] == hist'[..k];
      TicketsBelow(hist, hist', k - 1, n - 1);
    }
  }

  lemma WindowTimesBelow(p: PowParams, hist: History, hist': History, k: nat, n: nat)
    requires k < |hist| && k < |hist'| && hist[..k + 1] == hist'[..k + 1]
    ensures WindowTimes(p, hist, k, n) == WindowTimes(p, hist', k, n)
  {
    forall i | 0 <= i < n
      ensures WindowTime(p, hist, k, i) == WindowTime(p, hist', k, i)
    {
      var older, newer := Back(k, (i + 1) * p.workDiffWindowSize), Back(k, i * p.workDiffWindowSize);
      BackBelow(k, i, p.workDiffWindowSize);
      assert hist[older] == hist[..k + 1][older] == hist'[older];
      assert hist[newer] == hist[..k + 1][newer] == hist'[newer];
    }
  }

  lemma BackBelow(k: nat, i: nat, size: nat)
    ensures i * size >= 0 && (i + 1) * size >= 0
    ensures Back(k, (i + 1) * size) <= k && Back(k, i * size) <= k
  {
  }

  lemma BitsBelow(p: PowParams, hist: History, hist': History, k: nat, time: int)
    requires k < |hist| && k < |hist'| && hist[..k + 1] == hist'[..k + 1] && PowParamsOk(p)
    ensures RequiredBits(p, hist, k, time) == RequiredBits(p, hist', k, time)
  {
    assert hist[k] == hist[..k + 1][k] == hist'[k];
    MulPositive(p.workDiffWindowSize, p.workDiffWindows);
    RegularBitsBelow(p, hist, hist', k);
    WindowTimesBelow(p, hist, hist', k, p.workDiffWindows);
    hide LastRegularBits, WindowTimes, NextTarget, CompactToBig, BigToCompact;
  }

  lemma PriceBelow(p: StakeParams, hist: History, hist': History, k: nat)
    requires k < |hist| && k < |hist'| && hist[..k + 1] == hist'[..k + 1] && StakeParamsOk(p)
    ensures RequiredPrice(p, hist, k) == RequiredPrice(p, hist', k)
  {
    assert hist[k] == hist[..k + 1][k] == hist'[k];
    var prev := k - p.stakeDiffWindowSize;
    TicketsBelow(hist, hist', k, p.ticketMaturity);
    if 0 <= prev {
      assert hist[..prev + 1] == hist[..k + 1][..prev + 1] == hist'[..prev + 1];
      assert hist[prev] == hist[..k + 1][prev] == hist'[prev];
      TicketsBelow(hist, hist', prev, p.ticketMaturity);
    }
    hide TicketsBought, CalcNextStakeDiffV2;
  }

  /** Whether a block is valid depends on the history up to it alone. */
  lemma ValidBelow(r: Rules, hist: History, hist': History, k: nat)
    requires RulesOk(r) && 0 < k < |hist| && k < |hist'| && hist[..k + 1] == hist'[..k + 1]
    ensures BlockOk(r.params, r.powOk, hist, k) <==> BlockOk(r.params, r.powOk, hist', k)
  {
    hide RequiredBits, RequiredPrice, PowParamsOk, StakeParamsOk;
    assert hist[k] == hist[..k + 1][k] == hist'[k];
    assert hist[..k] == hist[..k + 1][..k] == hist'[..k];
    BitsBelow(r.params.pow, hist, hist', k - 1, hist[k].timestamp);
    PriceBelow(r.params.stake, hist, hist', k - 1);
  }

  // ----- across a switch -----

  /** Switching a valid main chain to a valid branch leaves a valid main chain. */
  lemma SwitchStaysTrue(r: Rules, w: World, main: seq<Hash>, c: seq<Hash>)
    requires ChainValid(r, w, main) && BranchValid(r, w, main, c)
    ensures ChainValid(r, w, SwitchedMain(w, main, c))
  {
    var main' := SwitchedMain(w, main, c);
    var f := ForkHeight(w, main, c);
    var hist, hist' := HistoryOf(w, main), HistoryOf(w, main');
    assert main'[0] == main[0];
    hide BlockOk, PowParamsOk, StakeParamsOk, HistoryOf;
    forall k | 1 <= k < |main'|
      ensures BlockOk(r.params, r.powOk, hist', k)
    {
      if k < f {
        SameHistory(w, main, main', f, k);
        ValidBelow(r, hist, hist', k);
      }
    }
  }

  lemma SameHistory(w: World, main: seq<Hash>, main': seq<Hash>, f: nat, k: nat)
    requires k < f <= |main| && f <= |main'| && main[..f] == main'[..f]
    ensures HistoryOf(w, main)[..k + 1] == HistoryOf(w, main')[..k + 1]
  {
    forall i | 0 <= i < f
      ensures main[i] == main'[i]
    {
      assert main[i] == main[..f][i] == main'[..f][i];
    }
  }

  /** Validates the branch a wallet is about to switch to; true exactly if all its
      blocks are valid. */
  method ValidateBranch(r: Rules, wallet: Wallet, chain: seq<Node>) returns (valid: bool)
    requires wallet.Valid() && RulesOk(r) && OwnHeaders(wallet.w, chain) && NoZeroHash(wallet.w, wallet.mainChain)
    requires wallet.w.IsChain(Hashes(chain)) && Extends(wallet.w, wallet.mainChain, Hashes(chain))
    requires forall h :: h in Hashes(chain) ==> h in wallet.w.known
    ensures valid <==> BranchValid(r, wallet.w, wallet.mainChain, Hashes(chain))
  {
    ghost var w, main, hs := wallet.w, wallet.mainChain, Hashes(chain);
    ghost var hist := HistoryOf(w, SwitchedMain(w, main, hs));
    var headers := seq(|chain|, i requires 0 <= i < |chain| => chain[i].header);
    BranchOnTop(w, main, chain, headers);
    MixedServes(w, main, wallet.headers, hs);
    ParentRecorded(w, main, wallet.headers, hs);
    hide AllOk, Serves, InMainChain, IsTop, FirstInvalid, PowParamsOk, StakeParamsOk, HistoryOf;
    hide Wallet.Valid, OwnHeaders, Hashes, Extends, Headers.World.IsChain, NoZeroHash;
    var v := ValidateHeaderChainDifficulties(r.params, r.powOk, Db(wallet.headers, wallet.mainChain), headers, 0, hist);
    valid := v.Valid?;
    if v.Invalid? {
      InvalidMeans(r, hist, ForkHeight(w, main, hs), v.rest);
    }
  }

  lemma BranchOnTop(w: World, main: seq<Hash>, chain: seq<Node>, headers: seq<Header>)
    requires |main| > 0 && OwnHeaders(w, chain) && Extends(w, main, Hashes(chain))
    requires |headers| == |chain| && forall i :: 0 <= i < |chain| ==> headers[i] == chain[i].header
    ensures var hist := HistoryOf(w, SwitchedMain(w, main, Hashes(chain)));
            && headers == HistoryOf(w, Hashes(chain)) && headers != [] && IsTop(headers, hist)
            && |hist| - |headers| == ForkHeight(w, main, Hashes(chain)) > 0
            && |hist| == |SwitchedMain(w, main, Hashes(chain))|
    ensures headers[0] == w.headerOf(Hashes(chain)[0])
  {
    var hs := Hashes(chain);
    var hist := HistoryOf(w, SwitchedMain(w, main, hs));
    forall i | 0 <= i < |headers|
      ensures hist[|hist| - |headers| + i] == headers[i]
    {
      assert SwitchedMain(w, main, hs)[ForkHeight(w, main, hs) + i] == hs[i];
    }
  }

  /** The block below the branch is in the main chain. */
  lemma ParentRecorded(w: World, main: seq<Hash>, headers: map<Hash, Header>, c: seq<Hash>)
    requires MainOk(w, main) && HeadersOk(w, main, headers) && Extends(w, main, c)
    ensures InMainChain(Db(headers, main), w.Prev(c[0]))
  {
    MainHeights(w, main);
    assert main[w.Height(c[0]) - 1] in main;
  }

  lemma InvalidMeans(r: Rules, hist: History, from: nat, rest: seq<Header>)
    requires RulesOk(r) && 0 < from && FirstInvalid(r.params, r.powOk, hist, from, rest)
    ensures !AllOk(r.params, r.powOk, hist, from, |hist|)
  {
    assert !BlockOk(r.params, r.powOk, hist, |hist| - |rest|);
  }
}

/** Runs in which every switch is validated first, as the syncer does. */
module ValidRuns {
  import opened Headers
  import opened MainChains
  import opened MarkerRuns
  import opened Validity

  /** The main chain changes only by a switch to a branch found valid. */
  ghost predicate Validated(r: Rules, w: World, maturity: nat, s: State, s': State)
    requires RulesOk(r)
  {
    s'.main != s.main ==>
      exists chain, withTxs :: SwitchStep(w, maturity, s, s', chain, withTxs) && BranchValid(r, w, s.main, chain)
  }

  /** Then in every state of every run each main chain block has the difficulty and the
      price its history requires, and performed its work. */
  lemma {:induction false} MainStaysValid(r: Rules, w: World, maturity: nat, genesis: Hash, run: seq<State>, i: nat)
    requires w.PositiveWork() && IsRun(w, maturity, run) && i < |run| && Init(w, genesis, run[0])
    requires RulesOk(r) && ChainValid(r, w, run[0].main)
    requires forall k :: 0 < k < |run| ==> Validated(r, w, maturity, run[k - 1], run[k])
    ensures ChainValid(r, w, run[i].main)
  {
    hide ChainValid, BranchValid, Step, Init, RulesOk, SwitchedMain, SwitchStep;
    if i > 0 {
      MainStaysValid(r, w, maturity, genesis, run, i - 1);
      assert Validated(r, w, maturity, run[i - 1], run[i]);
      if run[i].main != run[i - 1].main {
        var chain, withTxs :| SwitchStep(w, maturity, run[i - 1], run[i], chain, withTxs)
                              && BranchValid(r, w, run[i - 1].main, chain);
        SwitchesTo(w, maturity, run[i - 1], run[i], chain, withTxs);
        SwitchStaysTrue(r, w, run[i - 1].main, chain);
      }
    }
  }

  lemma SwitchesTo(w: World, maturity: nat, s: State, s': State, chain: seq<Hash>, withTxs: bool)
    requires SwitchStep(w, maturity, s, s', chain, withTxs)
    ensures chain != [] && s'.main == SwitchedMain(w, s.main, chain)
  {
  }
}

/** Which of the wallet's addresses a block pays to, and which of these payments its
    filter commits to (wallet/discovery.go).  A ticket pays its voting address in its
    submission output, which no filter commits to. */
module Payments {
  import opened Gaps
  import opened AddrFinders
  import T = TxScans
  import C = Committed

  /** The script of every address of the wallet. */
  type Scripts = Path -> T.Script

  ghost predicate Distinct(scriptOf: Scripts) {
    forall p, q {:trigger scriptOf(p), scriptOf(q)} :: scriptOf(p) == scriptOf(q) ==> p == q
  }

  /** The block's filter commits to the address. */
  predicate CommitsTo(scriptOf: Scripts, b: T.Block, p: Path) {
    C.PkScript(scriptOf(p)) in C.Commitments(b)
  }

  /** Some output of the block pays to the address. */
  predicate Pays(scriptOf: Scripts, b: T.Block, p: Path) {
    exists i :: 0 <= i < |T.Items(b)| && T.Items(b)[i].Pays({T.Address(scriptOf(p))})
  }

  predicate SeenBy(scriptOf: Scripts, chain: seq<T.Block>, p: Path) {
    exists k :: 0 <= k < |chain| && CommitsTo(scriptOf, chain[k], p)
  }

  predicate PaidBy(scriptOf: Scripts, chain: seq<T.Block>, p: Path) {
    exists k :: 0 <= k < |chain| && Pays(scriptOf, chain[k], p)
  }

  /** The indexes of a branch that the blocks' filters commit to. */
  ghost function Seen(scriptOf: Scripts, chain: seq<T.Block>, branch: nat): set<nat> {
    set i: nat | i < HARDENED_KEY_START && SeenBy(scriptOf, chain, Path(branch, i))
  }

  /** The indexes of a branch that the blocks pay to. */
  ghost function Paid(scriptOf: Scripts, chain: seq<T.Block>, branch: nat): set<nat> {
    set i: nat | i < HARDENED_KEY_START && PaidBy(scriptOf, chain, Path(branch, i))
  }

  /** No output the filter covers carries the address's script. */
  ghost predicate OnlySubmitted(scriptOf: Scripts, b: T.Block, p: Path) {
    forall i, k :: 0 <= i < |T.Items(b)| && 0 <= k < |T.Items(b)[i].tx.outputs| && C.CommitsOutput(T.Items(b)[i], k) ==>
      C.CommittedScript(T.Items(b)[i], k) != scriptOf(p)
  }

  lemma SubmittedMeans(scriptOf: Scripts, b: T.Block, p: Path)
    ensures CommitsTo(scriptOf, b, p) <==> !OnlySubmitted(scriptOf, b, p)
  {
    var e := C.PkScript(scriptOf(p));
    if CommitsTo(scriptOf, b, p) {
      var i :| 0 <= i < |T.Items(b)| && e in C.CommittedBy(T.Items(b)[i]);
      var t := T.Items(b)[i];
      var k :| 0 <= k < |t.tx.outputs| && C.CommitsOutput(t, k) && C.PkScript(C.CommittedScript(t, k)) == e;
    }
    if !OnlySubmitted(scriptOf, b, p) {
      var i, k :| 0 <= i < |T.Items(b)| && 0 <= k < |T.Items(b)[i].tx.outputs| && C.CommitsOutput(T.Items(b)[i], k)
                  && C.CommittedScript(T.Items(b)[i], k) == scriptOf(p);
      assert e in C.CommittedBy(T.Items(b)[i]);
    }
  }

  // ----- the scripts kept for a block -----

  /** The scripts of the first `n` outputs that the filter covers. */
  ghost function ScriptsOf(t: T.Item, n: nat): set<T.Script>
    requires n <= |t.tx.outputs|
  {
    set k | 0 <= k < n && C.CommitsOutput(t, k) :: C.CommittedScript(t, k)
  }

  ghost function AllScripts(items: seq<T.Item>): set<T.Script> {
    set i, s | 0 <= i < |items| && s in ScriptsOf(items[i], |items[i].tx.outputs|) :: s
  }

  lemma ScriptsStep(t: T.Item, n: nat)
    requires n < |t.tx.outputs|
    ensures ScriptsOf(t, n + 1) == ScriptsOf(t, n) + if C.CommitsOutput(t, n) then {C.CommittedScript(t, n)} else {}
  {
  }

  lemma ItemsStep(items: seq<T.Item>, i: nat)
    requires i < |items|
    ensures AllScripts(items[..i + 1]) == AllScripts(items[..i]) + ScriptsOf(items[i], |items[i].tx.outputs|)
  {
    assert items[..i + 1] == items[..i] + [items[i]];
  }

  lemma ItemsConcat(x: seq<T.Item>, y: seq<T.Item>)
    ensures AllScripts(x + y) == AllScripts(x) + AllScripts(y)
  {
    forall s | s in AllScripts(y)
      ensures s in AllScripts(x + y)
    {
      var i :| 0 <= i < |y| && s in ScriptsOf(y[i], |y[i].tx.outputs|);
      assert (x + y)[|x| + i] == y[i];
    }
    forall s | s in AllScripts(x)
      ensures s in AllScripts(x + y)
    {
      var i :| 0 <= i < |x| && s in ScriptsOf(x[i], |x[i].tx.outputs|);
      assert (x + y)[i] == x[i];
    }
  }

  lemma AllCommitted(b: T.Block)
    ensures forall s :: s in AllScripts(T.Items(b)) <==> C.PkScript(s) in C.Commitments(b)
  {
    forall s | C.PkScript(s) in C.Commitments(b)
      ensures s in AllScripts(T.Items(b))
    {
      var i :| 0 <= i < |T.Items(b)| && C.PkScript(s) in C.CommittedBy(T.Items(b)[i]);
      var t := T.Items(b)[i];
      var k :| 0 <= k < |t.tx.outputs| && C.CommitsOutput(t, k) && C.PkScript(C.CommittedScript(t, k)) == C.PkScript(s);
      assert s in ScriptsOf(t, |t.tx.outputs|);
    }
    forall s | s in AllScripts(T.Items(b))
      ensures C.PkScript(s) in C.Commitments(b)
    {
      var i :| 0 <= i < |T.Items(b)| && s in ScriptsOf(T.Items(b)[i], |T.Items(b)[i].tx.outputs|);
      assert C.PkScript(s) in C.CommittedBy(T.Items(b)[i]);
    }
  }

  /** The scripts remembered of a fetched block are exactly those its filter commits
      to. */
  method BlockCommitments(b: T.Block) returns (c: set<T.Script>)
    ensures forall s :: s in c <==> C.PkScript(s) in C.Commitments(b)
  {
    hide AllScripts, ScriptsOf, T.ItemsOf, C.CommitsOutput, C.Commitments;
    c := {};
    var regular, stake := T.ItemsOf(b.regular, T.REGULAR), T.ItemsOf(b.stake, T.STAKE);
    TreeItems(b.regular, T.REGULAR);
    TreeItems(b.stake, T.STAKE);
    NoItems(regular);
    NoItems(stake);
    var i := 0;
    while i < |regular|
      invariant 0 <= i <= |regular| && c == AllScripts(regular[..i])
    {
      c := AddItem(c, regular[i]);
      ItemsStep(regular, i);
      i := i + 1;
    }
    assert regular[..i] == regular;
    i := 0;
    while i < |stake|
      invariant 0 <= i <= |stake| && c == AllScripts(regular) + AllScripts(stake[..i])
    {
      c := AddItem(c, stake[i]);
      ItemsStep(stake, i);
      i := i + 1;
    }
    assert stake[..i] == stake;
    ItemsConcat(stake, regular);
    AllCommitted(b);
  }

  lemma NoItems(items: seq<T.Item>)
    ensures AllScripts(items[..0]) == {}
  {
  }

  lemma TreeItems(txs: seq<T.Tx>, tree: nat)
    ensures forall t :: t in T.ItemsOf(txs, tree) ==> t.tree == tree
  {
  }

  /** The scripts of one transaction, by its tree and kind. */
  method AddItem(c0: set<T.Script>, t: T.Item) returns (c: set<T.Script>)
    requires t.tree == T.REGULAR || t.tree == T.STAKE
    ensures c == c0 + ScriptsOf(t, |t.tx.outputs|)
  {
    hide ScriptsOf;
    c := c0;
    if t.tree == T.REGULAR {
      c := AddScripts(c, t, 0, 1, false);
    } else {
      match t.tx.kind {
        case TicketPurchase => c := AddScripts(c, t, 2, 2, true);
        case Vote => c := AddScripts(c, t, 2, 1, false);
        case Revocation => c := AddScripts(c, t, 0, 1, false);
        case Regular => NoScripts(t);
      }
    }
  }

  lemma NoScripts(t: T.Item)
    requires t.tree == T.STAKE && t.tx.kind == T.Regular
    ensures ScriptsOf(t, |t.tx.outputs|) == {}
  {
  }

  lemma ScriptsBefore(t: T.Item, n: nat)
    requires n <= |t.tx.outputs| && forall k :: 0 <= k < n ==> !C.CommitsOutput(t, k)
    ensures ScriptsOf(t, n) == {}
  {
    hide C.CommitsOutput, C.CommittedScript;
  }

  /** Adds every script, or every other, from the `first` output on; with `valued`, only
      of outputs that carry a value. */
  method AddScripts(c0: set<T.Script>, t: T.Item, first: nat, step: nat, valued: bool) returns (c: set<T.Script>)
    requires 1 <= step <= 2
    requires forall k :: 0 <= k < |t.tx.outputs| ==>
               (C.CommitsOutput(t, k) <==> first <= k && (k - first) % step == 0 && (valued ==> t.tx.outputs[k].value != 0))
    ensures c == c0 + ScriptsOf(t, |t.tx.outputs|)
  {
    hide C.CommitsOutput, C.CommittedScript, ScriptsOf;
    c := c0;
    var n := |t.tx.outputs|;
    var k := first;
    ScriptsBefore(t, if k < n then k else n);
    while k < n
      invariant first <= k && (k - first) % step == 0
      invariant c == c0 + ScriptsOf(t, if k < n then k else n)
      decreases n - k
    {
      ScriptsStep(t, k);
      if k + 1 < n {
        ScriptsStep(t, k + 1);
      }
      if !(valued && t.tx.outputs[k].value == 0) {
        c := c + {C.CommittedScript(t, k)};
      }
      k := k + step;
    }
  }

  // ----- tickets -----

  /** The opcodes that tag a ticket's submission and change outputs. */
  const OP_SSTX := 0xba
  const OP_SSTXCHANGE := 0xbd

  /** A ticket with a voting address of the wallet and no change. */
  function Ticket(scriptOf: Scripts, p: Path): T.Tx {
    T.Tx(p.index, T.TicketPurchase, [T.OutPoint(p.index, 0, T.REGULAR)],
      [T.Output(1, [OP_SSTX] + scriptOf(p), [T.Address(scriptOf(p))]), T.Output(0, [], []), T.Output(0, [OP_SSTXCHANGE], [])])
  }

  /** Tickets for the first `n` addresses of a branch, and a coinbase that pays the
      next one. */
  function TicketBlock(scriptOf: Scripts, branch: nat, n: nat): T.Block {
    T.Block(1, seq(n, i requires 0 <= i < n => Ticket(scriptOf, Path(branch, i))),
      [T.Tx(n, T.Regular, [], [T.Output(1, scriptOf(Path(branch, n)), [T.Address(scriptOf(Path(branch, n)))])])])
  }

  lemma TicketItems(scriptOf: Scripts, branch: nat, n: nat)
    ensures var items := T.Items(TicketBlock(scriptOf, branch, n));
            && |items| == n + 1
            && (forall i :: 0 <= i < n ==> items[i] == T.Item(Ticket(scriptOf, Path(branch, i)), i, T.STAKE))
            && items[n] == T.Item(TicketBlock(scriptOf, branch, n).regular[0], 0, T.REGULAR)
  {
  }

  /** All these addresses are paid, and the filter commits to the last one alone. */
  lemma TicketsUncommitted(scriptOf: Scripts, branch: nat, n: nat)
    requires Distinct(scriptOf) && n < HARDENED_KEY_START
    ensures var chain := [TicketBlock(scriptOf, branch, n)];
            && (forall i: nat :: i in Paid(scriptOf, chain, branch) <==> i <= n)
            && Seen(scriptOf, chain, branch) == {n}
  {
    hide T.Items, TicketBlock, Pays, CommitsTo, Distinct;
    var b := TicketBlock(scriptOf, branch, n);
    forall j: nat
      ensures Pays(scriptOf, b, Path(branch, j)) <==> j <= n
      ensures CommitsTo(scriptOf, b, Path(branch, j)) <==> j == n
    {
      TicketPays(scriptOf, branch, n, j);
      TicketCommits(scriptOf, branch, n, j);
    }
    forall j: nat
      ensures PaidBy(scriptOf, [b], Path(branch, j)) <==> j <= n
      ensures SeenBy(scriptOf, [b], Path(branch, j)) <==> j == n
    {
      OneBlock(scriptOf, b, Path(branch, j));
    }
  }

  lemma OneBlock(scriptOf: Scripts, b: T.Block, p: Path)
    ensures PaidBy(scriptOf, [b], p) <==> Pays(scriptOf, b, p)
    ensures SeenBy(scriptOf, [b], p) <==> CommitsTo(scriptOf, b, p)
  {
    assert [b][0] == b;
  }

  lemma TicketPays(scriptOf: Scripts, branch: nat, n: nat, j: nat)
    requires Distinct(scriptOf)
    ensures Pays(scriptOf, TicketBlock(scriptOf, branch, n), Path(branch, j)) <==> j <= n
  {
    var items := T.Items(TicketBlock(scriptOf, branch, n));
    TicketItems(scriptOf, branch, n);
    var x := T.Address(scriptOf(Path(branch, j)));
    forall i | 0 <= i <= n
      ensures items[i].Pays({x}) <==> i == j
    {
      var y := T.Address(scriptOf(Path(branch, i)));
      assert y in items[i].tx.outputs[0].addrs;
      assert i == j ==> items[i].PaysAt({x}, 0);
    }
  }

  lemma TicketCommits(scriptOf: Scripts, branch: nat, n: nat, j: nat)
    requires Distinct(scriptOf)
    ensures CommitsTo(scriptOf, TicketBlock(scriptOf, branch, n), Path(branch, j)) <==> j == n
  {
    var b, p := TicketBlock(scriptOf, branch, n), Path(branch, j);
    TicketItems(scriptOf, branch, n);
    SubmittedMeans(scriptOf, b, p);
    var t := T.Items(b)[n];
    assert C.CommitsOutput(t, 0) && C.CommittedScript(t, 0) == scriptOf(Path(branch, n));
  }
}

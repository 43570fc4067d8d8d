/** spv/rescan.go: testing the transactions of a block against watched addresses
    and outpoints, and the plain scan of a list of blocks. */
module TxScans {

  /** The bytes of an output script. */
  type Script = seq<nat>

  /** An address is identified by the script that pays to it. */
  datatype Address = Address(script: Script)

  const REGULAR := 0
  const STAKE := 1

  datatype OutPoint = OutPoint(tx: nat, index: nat, tree: nat)

  datatype TxKind = Regular | TicketPurchase | Vote | Revocation

  /** `addrs` are the addresses an output pays to as the wallet looks them up: the
      address of a public key counts with that of its hash, and there are none if
      the script is not understood. */
  datatype Output = Output(value: nat, script: Script, addrs: seq<Address>)

  /** `kind` is what the transaction's form says; it is consulted only for the
      stake tree. */
  datatype Tx = Tx(hash: nat, kind: TxKind, inputs: seq<OutPoint>, outputs: seq<Output>)

  datatype Block = Block(hash: nat, stake: seq<Tx>, regular: seq<Tx>)

  /** A transaction as the scan meets it: its place in its tree matters. */
  datatype Item = Item(tx: Tx, pos: nat, tree: nat) {

    /** The inputs that reference previous outputs. */
    function Inputs(): seq<OutPoint> {
      var kind := if tree == STAKE then tx.kind else Regular;
      if pos == 0 && kind == Regular then []
      else if kind == Vote && |tx.inputs| > 0 then tx.inputs[1..]
      else tx.inputs
    }

    predicate PaysAt(a: set<Address>, k: nat)
      requires k < |tx.outputs|
    {
      exists x :: x in tx.outputs[k].addrs && x in a
    }

    /** The outpoints of outputs that pay to a watched address. */
    function NewOutPoints(a: set<Address>): set<OutPoint> {
      set k | 0 <= k < |tx.outputs| && PaysAt(a, k) :: OutPoint(tx.hash, k, tree)
    }

    predicate Spends(u: set<OutPoint>) {
      exists i :: 0 <= i < |Inputs()| && Inputs()[i] in u
    }

    predicate Pays(a: set<Address>) {
      exists k :: 0 <= k < |tx.outputs| && PaysAt(a, k)
    }

    predicate Relevant(a: set<Address>, u: set<OutPoint>) {
      Spends(u) || Pays(a)
    }
  }

  function ItemsOf(txs: seq<Tx>, tree: nat): (r: seq<Item>)
    ensures |r| == |txs|
  {
    seq(|txs|, i requires 0 <= i < |txs| => Item(txs[i], i, tree))
  }

  /** A block's transactions in scan order: the stake tree comes first. */
  function Items(b: Block): seq<Item> {
    ItemsOf(b.stake, STAKE) + ItemsOf(b.regular, REGULAR)
  }

  // ----- the plain scan -----

  /** The outpoints known after scanning `items`. */
  function Unspent(a: set<Address>, u: set<OutPoint>, items: seq<Item>): set<OutPoint> {
    if items == [] then u
    else Unspent(a, u, items[..|items| - 1]) + items[|items| - 1].NewOutPoints(a)
  }

  /** The transactions found by scanning `items`. */
  function Matches(a: set<Address>, u: set<OutPoint>, items: seq<Item>): seq<Tx> {
    if items == [] then []
    else
      var last := items[|items| - 1];
      var before := items[..|items| - 1];
      Matches(a, u, before) + if last.Relevant(a, Unspent(a, u, before)) then [last.tx] else []
  }

  /** The outpoints known after scanning `blocks`. */
  function UnspentAfter(a: set<Address>, u: set<OutPoint>, blocks: seq<Block>): set<OutPoint> {
    if blocks == [] then u
    else Unspent(a, UnspentAfter(a, u, blocks[..|blocks| - 1]), Items(blocks[|blocks| - 1]))
  }

  /** What the plain scan finds in block `i`, every block before it scanned. */
  function MatchesAt(a: set<Address>, u: set<OutPoint>, blocks: seq<Block>, i: nat): seq<Tx>
    requires i < |blocks|
  {
    Matches(a, UnspentAfter(a, u, blocks[..i]), Items(blocks[i]))
  }

  lemma {:induction false} ScanConcat(a: set<Address>, u: set<OutPoint>, x: seq<Item>, y: seq<Item>)
    ensures Unspent(a, u, x + y) == Unspent(a, Unspent(a, u, x), y)
    ensures Matches(a, u, x + y) == Matches(a, u, x) + Matches(a, Unspent(a, u, x), y)
  {
    if y == [] {
      assert x + y == x;
    } else {
      var y' := y[..|y| - 1];
      assert (x + y)[..|x + y| - 1] == x + y';
      ScanConcat(a, u, x, y');
    }
  }

  lemma {:induction false} UnspentGrows(a: set<Address>, u: set<OutPoint>, items: seq<Item>)
    ensures u <= Unspent(a, u, items)
  {
    if items != [] {
      UnspentGrows(a, u, items[..|items| - 1]);
    }
  }

  // ----- what the plain scan finds, said without a scan -----

  /** The items of all blocks, in scan order. */
  function AllItems(blocks: seq<Block>): seq<Item> {
    if blocks == [] then [] else AllItems(blocks[..|blocks| - 1]) + Items(blocks[|blocks| - 1])
  }

  lemma {:induction false} UnspentAfterAll(a: set<Address>, u: set<OutPoint>, blocks: seq<Block>)
    ensures UnspentAfter(a, u, blocks) == Unspent(a, u, AllItems(blocks))
  {
    if blocks != [] {
      var rest := blocks[..|blocks| - 1];
      UnspentAfterAll(a, u, rest);
      ScanConcat(a, u, AllItems(rest), Items(blocks[|blocks| - 1]));
    }
  }

  /** An outpoint is watched exactly if it was from the start or an item scanned
      so far pays a watched address with it. */
  lemma {:induction false} WatchedMeans(a: set<Address>, u: set<OutPoint>, items: seq<Item>, op: OutPoint)
    ensures op in Unspent(a, u, items) <==> op in u || exists j :: 0 <= j < |items| && op in items[j].NewOutPoints(a)
  {
    if items != [] {
      var rest := items[..|items| - 1];
      WatchedMeans(a, u, rest, op);
      if op in Unspent(a, u, rest) && op !in u {
        var j :| 0 <= j < |rest| && op in rest[j].NewOutPoints(a);
        assert op in items[j].NewOutPoints(a);
      }
    }
  }

  /** Item `j` creates the outpoint by an output that pays a watched address. */
  ghost predicate CreatedBy(a: set<Address>, t: Item, op: OutPoint) {
    exists k, x :: 0 <= k < |t.tx.outputs| && x in t.tx.outputs[k].addrs && x in a && op == OutPoint(t.tx.hash, k, t.tree)
  }

  lemma CreatedMeans(a: set<Address>, t: Item, op: OutPoint)
    ensures CreatedBy(a, t, op) <==> op in t.NewOutPoints(a)
  {
    if op in t.NewOutPoints(a) {
      var k :| 0 <= k < |t.tx.outputs| && t.PaysAt(a, k) && op == OutPoint(t.tx.hash, k, t.tree);
      var x :| x in t.tx.outputs[k].addrs && x in a;
    }
    if CreatedBy(a, t, op) {
      var k, x :| 0 <= k < |t.tx.outputs| && x in t.tx.outputs[k].addrs && x in a && op == OutPoint(t.tx.hash, k, t.tree);
      assert t.PaysAt(a, k);
    }
  }

  /** The outpoint was watched from the start, or created by a payment to a
      watched address before item `k`. */
  ghost predicate WatchedBefore(a: set<Address>, u: set<OutPoint>, items: seq<Item>, k: nat, op: OutPoint)
    requires k <= |items|
  {
    op in u || exists j :: 0 <= j < k && CreatedBy(a, items[j], op)
  }

  /** What counts as spending: any input, except all of a coinbase, and the first of a
      vote. */
  lemma SpendsExactly(t: Item, u: set<OutPoint>)
    ensures t.Spends(u) <==>
            exists i :: 0 <= i < |t.tx.inputs| && t.tx.inputs[i] in u
                        && (t.tree == STAKE && t.tx.kind.Vote? ==> i > 0)
                        && (t.pos == 0 ==> t.tree == STAKE && !t.tx.kind.Regular?)
  {
    if t.Spends(u) {
      var i :| 0 <= i < |t.Inputs()| && t.Inputs()[i] in u;
      var j := if t.tree == STAKE && t.tx.kind.Vote? then i + 1 else i;
      assert t.tx.inputs[j] in u;
    }
    if i :| 0 <= i < |t.tx.inputs| && t.tx.inputs[i] in u
            && (t.tree == STAKE && t.tx.kind.Vote? ==> i > 0)
            && (t.pos == 0 ==> t.tree == STAKE && !t.tx.kind.Regular?) {
      var j := if t.tree == STAKE && t.tx.kind.Vote? then i - 1 else i;
      assert t.Inputs()[j] == t.tx.inputs[i];
    }
  }

  /** The plain scan finds a transaction exactly if an output of it pays a watched
      address, or an input of it spends an outpoint that was watched from the start or
      was created by an earlier payment to a watched address.  The inputs of a
      coinbase do not count, nor does the first of a vote. */
  lemma FoundMeans(a: set<Address>, u: set<OutPoint>, items: seq<Item>, k: nat)
    requires k < |items|
    ensures var t := items[k];
            var pays := exists o, x :: 0 <= o < |t.tx.outputs| && x in t.tx.outputs[o].addrs && x in a;
            var spends := exists i :: 0 <= i < |t.tx.inputs| && WatchedBefore(a, u, items, k, t.tx.inputs[i])
                                      && (t.tree == STAKE && t.tx.kind.Vote? ==> i > 0)
                                      && (t.pos == 0 ==> t.tree == STAKE && !t.tx.kind.Regular?);
            Matches(a, u, items[..k + 1]) == Matches(a, u, items[..k]) + if pays || spends then [t.tx] else []
  {
    var before := items[..k];
    var t := items[k];
    assert items[..k + 1][..k] == before;
    forall op
      ensures op in Unspent(a, u, before) <==> WatchedBefore(a, u, items, k, op)
    {
      KnownBefore(a, u, items, k, op);
    }
    SpendsExactly(t, Unspent(a, u, before));
    hide Unspent, WatchedBefore;
    PaysExactly(t, a);
    hide Item.Inputs;
  }

  lemma PaysExactly(t: Item, a: set<Address>)
    ensures t.Pays(a) <==> exists o, x :: 0 <= o < |t.tx.outputs| && x in t.tx.outputs[o].addrs && x in a
  {
    if o, x :| 0 <= o < |t.tx.outputs| && x in t.tx.outputs[o].addrs && x in a {
      assert t.PaysAt(a, o);
    }
  }

  lemma KnownBefore(a: set<Address>, u: set<OutPoint>, items: seq<Item>, k: nat, op: OutPoint)
    requires k <= |items|
    ensures op in Unspent(a, u, items[..k]) <==> WatchedBefore(a, u, items, k, op)
  {
    var before := items[..k];
    WatchedMeans(a, u, before, op);
    forall j | 0 <= j < k
      ensures before[j] == items[j] && (CreatedBy(a, items[j], op) <==> op in items[j].NewOutPoints(a))
    {
      CreatedMeans(a, items[j], op);
    }
  }

  // ----- spending what was paid to us, across blocks -----

  /** A transaction of a block spends, if it is no coinbase, and with an input that is
      not the first of a vote. */
  ghost predicate RealInput(b: Block, tree: nat, k: nat, i: nat) {
    if tree == REGULAR then 0 < k < |b.regular| && i < |b.regular[k].inputs|
    else
      && tree == STAKE && k < |b.stake| && i < |b.stake[k].inputs|
      && (k == 0 ==> !b.stake[k].kind.Regular?) && (b.stake[k].kind.Vote? ==> i > 0)
  }

  function TxAt(b: Block, tree: nat, k: nat): Tx
    requires k < if tree == REGULAR then |b.regular| else |b.stake|
  {
    if tree == REGULAR then b.regular[k] else b.stake[k]
  }

  /** Every such input that spends an outpoint watched before the block makes its
      transaction found there. */
  lemma SpendFound(a: set<Address>, u: set<OutPoint>, blocks: seq<Block>, n: nat, tree: nat, k: nat, i: nat)
    requires n < |blocks| && RealInput(blocks[n], tree, k, i)
    requires TxAt(blocks[n], tree, k).inputs[i] in UnspentAfter(a, u, blocks[..n])
    ensures TxAt(blocks[n], tree, k) in MatchesAt(a, u, blocks, n)
  {
    var b := blocks[n];
    var pos := if tree == REGULAR then |b.stake| + k else k;
    var t := Items(b)[pos];
    assert t == Item(TxAt(b, tree, k), k, tree);
    var v := UnspentAfter(a, u, blocks[..n]);
    SpendsExactly(t, v);
    RelevantFound(a, v, Items(b), pos);
  }

  /** What is relevant before its block is found there. */
  lemma {:induction false} RelevantFound(a: set<Address>, u: set<OutPoint>, items: seq<Item>, k: nat)
    requires k < |items| && items[k].Relevant(a, u)
    ensures items[k].tx in Matches(a, u, items)
  {
    var n := |items| - 1;
    if k == n {
      UnspentGrows(a, u, items[..n]);
    } else {
      RelevantFound(a, u, items[..n], k);
    }
  }

  /** An outpoint that was watched stays so. */
  lemma {:induction false} StaysWatched(a: set<Address>, u: set<OutPoint>, blocks: seq<Block>, m: nat, n: nat, op: OutPoint)
    requires m <= n <= |blocks| && op in UnspentAfter(a, u, blocks[..m])
    ensures op in UnspentAfter(a, u, blocks[..n])
  {
    if m < n {
      StaysWatched(a, u, blocks, m, n - 1, op);
      assert blocks[..n][..n - 1] == blocks[..n - 1];
      UnspentGrows(a, UnspentAfter(a, u, blocks[..n - 1]), Items(blocks[n - 1]));
    }
  }

  /** An output that pays us is watched after its block. */
  lemma PaymentWatched(a: set<Address>, u: set<OutPoint>, blocks: seq<Block>, n: nat, tree: nat, k: nat, o: nat, x: Address)
    requires n < |blocks| && (tree == REGULAR || tree == STAKE)
    requires k < if tree == REGULAR then |blocks[n].regular| else |blocks[n].stake|
    requires o < |TxAt(blocks[n], tree, k).outputs| && x in TxAt(blocks[n], tree, k).outputs[o].addrs && x in a
    ensures OutPoint(TxAt(blocks[n], tree, k).hash, o, tree) in UnspentAfter(a, u, blocks[..n + 1])
  {
    var b := blocks[n];
    var pos := if tree == REGULAR then |b.stake| + k else k;
    var t := Items(b)[pos];
    var op := OutPoint(TxAt(b, tree, k).hash, o, tree);
    assert t == Item(TxAt(b, tree, k), k, tree) && t.PaysAt(a, o);
    assert op in t.NewOutPoints(a);
    assert blocks[..n + 1][..n] == blocks[..n];
    WatchedMeans(a, UnspentAfter(a, u, blocks[..n]), Items(b), op);
  }

  /** A transaction that spends an output of a payment to us in an earlier block is in
      the results of the plain scan. */
  lemma PaymentSpentFound(a: set<Address>, u: set<OutPoint>, blocks: seq<Block>, m: nat, payTree: nat, j: nat, o: nat, x: Address,
                          n: nat, tree: nat, k: nat, i: nat)
    requires m < n < |blocks| && (payTree == REGULAR || payTree == STAKE)
    requires j < if payTree == REGULAR then |blocks[m].regular| else |blocks[m].stake|
    requires o < |TxAt(blocks[m], payTree, j).outputs| && x in TxAt(blocks[m], payTree, j).outputs[o].addrs && x in a
    requires RealInput(blocks[n], tree, k, i)
    requires TxAt(blocks[n], tree, k).inputs[i] == OutPoint(TxAt(blocks[m], payTree, j).hash, o, payTree)
    ensures TxAt(blocks[n], tree, k) in MatchesAt(a, u, blocks, n)
  {
    PaymentWatched(a, u, blocks, m, payTree, j, o, x);
    StaysWatched(a, u, blocks, m + 1, n, TxAt(blocks[n], tree, k).inputs[i]);
    SpendFound(a, u, blocks, n, tree, k, i);
  }

  /** Within a block the stake tree comes first: a regular transaction that spends a
      stake transaction's payment to us is found, too. */
  lemma StakeSpentFound(a: set<Address>, u: set<OutPoint>, b: Block, j: nat, o: nat, x: Address, k: nat, i: nat)
    requires j < |b.stake| && o < |b.stake[j].outputs| && x in b.stake[j].outputs[o].addrs && x in a
    requires RealInput(b, REGULAR, k, i) && b.regular[k].inputs[i] == OutPoint(b.stake[j].hash, o, STAKE)
    ensures b.regular[k] in MatchesAt(a, u, [b], 0)
  {
    var items, pos := Items(b), |b.stake| + k;
    assert items[j] == Item(b.stake[j], j, STAKE) && items[pos] == Item(b.regular[k], k, REGULAR);
    assert CreatedBy(a, items[j], b.regular[k].inputs[i]);
    assert WatchedBefore(a, u, items, pos, b.regular[k].inputs[i]);
    FoundMeans(a, u, items, pos);
    FoundStays(a, u, items, pos + 1, b.regular[k]);
    assert [b][..0] == [] && UnspentAfter(a, u, []) == u;
  }

  lemma {:induction false} FoundStays(a: set<Address>, u: set<OutPoint>, items: seq<Item>, n: nat, t: Tx)
    requires n <= |items| && t in Matches(a, u, items[..n])
    ensures t in Matches(a, u, items)
  {
    if n == |items| {
      assert items[..n] == items;
    } else {
      assert items[..|items| - 1][..n] == items[..n];
      FoundStays(a, u, items[..|items| - 1], n, t);
    }
  }

  /** Only relevant transactions add outpoints to watch. */
  lemma {:induction false} NothingFoundNothingAdded(a: set<Address>, u: set<OutPoint>, items: seq<Item>)
    requires Matches(a, u, items) == []
    ensures Unspent(a, u, items) == u
  {
    if items != [] {
      var last := items[|items| - 1];
      NothingFoundNothingAdded(a, u, items[..|items| - 1]);
      assert forall k :: 0 <= k < |last.tx.outputs| ==> !last.PaysAt(a, k);
    }
  }

  /** The non-empty results of the plain scan of the first `n` blocks. */
  function Found(a: set<Address>, u: set<OutPoint>, blocks: seq<Block>, n: nat): seq<(nat, seq<Tx>)>
    requires n <= |blocks|
  {
    if n == 0 then []
    else
      var m := MatchesAt(a, u, blocks, n - 1);
      Found(a, u, blocks, n - 1) + if m == [] then [] else [(n - 1, m)]
  }

  /** One more block of the plain scan. */
  lemma ScanStep(a: set<Address>, u: set<OutPoint>, blocks: seq<Block>, i: nat)
    requires i < |blocks|
    ensures var v := UnspentAfter(a, u, blocks[..i]);
            var m := Matches(a, v, Items(blocks[i]));
            && UnspentAfter(a, u, blocks[..i + 1]) == Unspent(a, v, Items(blocks[i]))
            && Found(a, u, blocks, i + 1) == Found(a, u, blocks, i) + if m == [] then [] else [(i, m)]
  {
    assert blocks[..i + 1][..i] == blocks[..i];
  }
}

/** What a block's filter commits to, and a scan that skips blocks.

    The filter of a block (vendor/github.com/valhallacoin/vhcd/gcs/blockcf) commits
    to scripts, not to addresses, and to none of the inputs of votes and
    revocations.  So a block can hold something of interest that its filter does not
    show.  This module says exactly when that changes the outcome of a scan. */
module Committed {
  import opened TxScans

  /** A filter entry: an output script, or an outpoint regardless of its tree. */
  datatype Entry = PkScript(script: Script) | Spent(tx: nat, index: nat)

  function EntryOf(op: OutPoint): Entry {
    Spent(op.tx, op.index)
  }

  /** Every filter entry for the watched data. */
  function Entries(a: set<Address>, u: set<OutPoint>): set<Entry> {
    (set x | x in a :: PkScript(x.script)) + (set o | o in u :: EntryOf(o))
  }

  predicate CommitsInputs(t: Item) {
    if t.tree == STAKE then t.tx.kind == TicketPurchase else t.pos != 0
  }

  /** Of a ticket purchase only the change outputs that carry a value are
      committed; of a vote those that pay out. */
  predicate CommitsOutput(t: Item, k: nat)
    requires k < |t.tx.outputs|
  {
    t.tree != STAKE ||
    match t.tx.kind
    case TicketPurchase => k >= 2 && k % 2 == 0 && t.tx.outputs[k].value != 0
    case Vote => k >= 2
    case Revocation => true
    case Regular => false
  }

  /** The stake tree's scripts are committed without their first byte, the stake
      tag. */
  function CommittedScript(t: Item, k: nat): Script
    requires k < |t.tx.outputs|
  {
    var script := t.tx.outputs[k].script;
    if t.tree == STAKE && script != [] then script[1..] else script
  }

  function CommittedBy(t: Item): set<Entry> {
    (set i | CommitsInputs(t) && 0 <= i < |t.tx.inputs| :: EntryOf(t.tx.inputs[i]))
    + (set k | 0 <= k < |t.tx.outputs| && CommitsOutput(t, k) :: PkScript(CommittedScript(t, k)))
  }

  /** All a block's filter commits to. */
  function Commitments(b: Block): set<Entry> {
    set i, e | 0 <= i < |Items(b)| && e in CommittedBy(Items(b)[i]) :: e
  }

  /** The outpoints committed are those spent by regular transactions other than the
      coinbase, and by ticket purchases. */
  lemma SpentExactly(b: Block, op: OutPoint)
    ensures EntryOf(op) in Commitments(b) <==>
            || (exists k, i :: 0 < k < |b.regular| && 0 <= i < |b.regular[k].inputs|
                               && b.regular[k].inputs[i].tx == op.tx && b.regular[k].inputs[i].index == op.index)
            || (exists k, i :: 0 <= k < |b.stake| && 0 <= i < |b.stake[k].inputs| && b.stake[k].kind.TicketPurchase?
                               && b.stake[k].inputs[i].tx == op.tx && b.stake[k].inputs[i].index == op.index)
  {
    var items := Items(b);
    if EntryOf(op) in Commitments(b) {
      var n :| 0 <= n < |items| && EntryOf(op) in CommittedBy(items[n]);
      var i :| 0 <= i < |items[n].tx.inputs| && EntryOf(op) == EntryOf(items[n].tx.inputs[i]);
      var k := if n < |b.stake| then n else n - |b.stake|;
      assert items[n] == if n < |b.stake| then Item(b.stake[k], k, STAKE) else Item(b.regular[k], k, REGULAR);
    }
    if k, i :| 0 < k < |b.regular| && 0 <= i < |b.regular[k].inputs|
               && b.regular[k].inputs[i].tx == op.tx && b.regular[k].inputs[i].index == op.index {
      var t := items[|b.stake| + k];
      assert t == Item(b.regular[k], k, REGULAR) && EntryOf(op) == EntryOf(t.tx.inputs[i]);
      assert EntryOf(op) in CommittedBy(t);
    }
    if k, i :| 0 <= k < |b.stake| && 0 <= i < |b.stake[k].inputs| && b.stake[k].kind.TicketPurchase?
               && b.stake[k].inputs[i].tx == op.tx && b.stake[k].inputs[i].index == op.index {
      var t := items[k];
      assert t == Item(b.stake[k], k, STAKE) && EntryOf(op) == EntryOf(t.tx.inputs[i]);
      assert EntryOf(op) in CommittedBy(t);
    }
  }

  /** The scripts committed are those of all outputs of regular transactions, and,
      without their first byte, of revocations, of votes from the third output on, and
      of ticket purchases in every second output from the third on that carries a
      value. */
  lemma ScriptExactly(b: Block, script: Script)
    requires forall k, o :: 0 <= k < |b.stake| && 0 <= o < |b.stake[k].outputs| ==> b.stake[k].outputs[o].script != []
    ensures PkScript(script) in Commitments(b) <==>
            || (exists k, o :: 0 <= k < |b.regular| && 0 <= o < |b.regular[k].outputs| && b.regular[k].outputs[o].script == script)
            || (exists k, o :: 0 <= k < |b.stake| && 0 <= o < |b.stake[k].outputs| && b.stake[k].outputs[o].script[1..] == script
                               && match b.stake[k].kind
                                  case Regular => false
                                  case TicketPurchase => o >= 2 && o % 2 == 0 && b.stake[k].outputs[o].value != 0
                                  case Vote => o >= 2
                                  case Revocation => true)
  {
    var items := Items(b);
    if PkScript(script) in Commitments(b) {
      var n :| 0 <= n < |items| && PkScript(script) in CommittedBy(items[n]);
      var o :| 0 <= o < |items[n].tx.outputs| && CommitsOutput(items[n], o)
               && PkScript(script) == PkScript(CommittedScript(items[n], o));
      var k := if n < |b.stake| then n else n - |b.stake|;
      assert items[n] == if n < |b.stake| then Item(b.stake[k], k, STAKE) else Item(b.regular[k], k, REGULAR);
    }
    if k, o :| 0 <= k < |b.regular| && 0 <= o < |b.regular[k].outputs| && b.regular[k].outputs[o].script == script {
      CommittedAt(b, |b.stake| + k, o, script);
    }
    forall k, o | 0 <= k < |b.stake| && 0 <= o < |b.stake[k].outputs| && b.stake[k].outputs[o].script[1..] == script
                  && CommitsOutput(Item(b.stake[k], k, STAKE), o)
      ensures PkScript(script) in Commitments(b)
    {
      CommittedAt(b, k, o, script);
    }
  }

  lemma CommittedAt(b: Block, n: nat, o: nat, script: Script)
    requires n < |Items(b)| && o < |Items(b)[n].tx.outputs|
    requires CommitsOutput(Items(b)[n], o) && CommittedScript(Items(b)[n], o) == script
    ensures PkScript(script) in Commitments(b)
  {
    assert PkScript(script) in CommittedBy(Items(b)[n]);
  }

  /** The filter commits to some entry of `d`. */
  predicate Hits(b: Block, d: set<Entry>) {
    Commitments(b) * d != {}
  }

  /** Whether a block's filter matches any of some entries. */
  type Filter = (Block, set<Entry>) -> bool

  /** A filter never misses an entry the block commits to; it may match falsely. */
  ghost predicate NoFalseNegatives(f: Filter) {
    forall b, d :: Hits(b, d) ==> f(b, d)
  }

  /** A filter that never matches falsely, either. */
  ghost predicate NoFalsePositives(f: Filter) {
    forall b, d :: f(b, d) ==> Hits(b, d)
  }

  lemma HitsMore(b: Block, d: set<Entry>, e: set<Entry>)
    requires d <= e && Hits(b, d)
    ensures Hits(b, e)
  {
    var x :| x in Commitments(b) * d;
    assert x in Commitments(b) * e;
  }

  lemma HitsUnion(b: Block, d: set<Entry>, e: set<Entry>)
    ensures Hits(b, d + e) <==> Hits(b, d) || Hits(b, e)
  {
    assert Commitments(b) * (d + e) == Commitments(b) * d + Commitments(b) * e;
  }

  lemma EntriesGrow(a: set<Address>, u: set<OutPoint>, v: set<OutPoint>)
    requires u <= v
    ensures Entries(a, u) <= Entries(a, v)
  {
  }

  // ----- scanning some of the blocks -----

  /** The outpoints known after scanning those blocks that are in `s`. */
  function AfterIn(a: set<Address>, u: set<OutPoint>, blocks: seq<Block>, s: set<nat>): set<OutPoint> {
    if blocks == [] then u
    else
      var n := |blocks| - 1;
      var v := AfterIn(a, u, blocks[..n], s);
      if n in s then Unspent(a, v, Items(blocks[n])) else v
  }

  /** What such a scan finds in block `i`. */
  function MatchesIn(a: set<Address>, u: set<OutPoint>, blocks: seq<Block>, s: set<nat>, i: nat): seq<Tx>
    requires i < |blocks|
  {
    if i in s then Matches(a, AfterIn(a, u, blocks[..i], s), Items(blocks[i])) else []
  }

  /** An empty result is not reported. */
  function Noted(i: nat, m: seq<Tx>): seq<(nat, seq<Tx>)> {
    if m == [] then [] else [(i, m)]
  }

  /** The results reported for the first `n` blocks. */
  function FoundIn(a: set<Address>, u: set<OutPoint>, blocks: seq<Block>, s: set<nat>, n: nat): seq<(nat, seq<Tx>)>
    requires n <= |blocks|
  {
    if n == 0 then []
    else FoundIn(a, u, blocks, s, n - 1) + Noted(n - 1, MatchesIn(a, u, blocks, s, n - 1))
  }

  /** Only the blocks before an index matter for what is known there. */
  lemma {:induction false} AfterInSame(a: set<Address>, u: set<OutPoint>, blocks: seq<Block>, s: set<nat>, s': set<nat>)
    requires forall i: nat :: i < |blocks| ==> (i in s <==> i in s')
    ensures AfterIn(a, u, blocks, s) == AfterIn(a, u, blocks, s')
  {
    hide Unspent, Items;
    if blocks != [] {
      AfterInSame(a, u, blocks[..|blocks| - 1], s, s');
    }
  }

  lemma {:induction false} FoundInSame(a: set<Address>, u: set<OutPoint>, blocks: seq<Block>, s: set<nat>, s': set<nat>, n: nat)
    requires n <= |blocks| && forall i: nat :: i < n ==> (i in s <==> i in s')
    ensures FoundIn(a, u, blocks, s, n) == FoundIn(a, u, blocks, s', n)
  {
    hide Matches, Unspent, Items, AfterIn, Noted;
    if n > 0 {
      FoundInSame(a, u, blocks, s, s', n - 1);
      AfterInSame(a, u, blocks[..n - 1], s, s');
    }
  }

  /** One more block, scanned or not. */
  lemma FoundInStep(a: set<Address>, u: set<OutPoint>, blocks: seq<Block>, s: set<nat>, i: nat)
    requires i < |blocks|
    ensures var v := AfterIn(a, u, blocks[..i], s);
            && AfterIn(a, u, blocks[..i + 1], s) == (if i in s then Unspent(a, v, Items(blocks[i])) else v)
            && FoundIn(a, u, blocks, s, i + 1) ==
               FoundIn(a, u, blocks, s, i) + Noted(i, MatchesIn(a, u, blocks, s, i))
  {
    assert blocks[..i + 1][..i] == blocks[..i];
  }

  /** The blocks scanned are those given from the start and those whose filter
      commits to something watched when their turn comes; with `exact`, no others. */
  ghost predicate ScansHits(a: set<Address>, u: set<OutPoint>, blocks: seq<Block>, given: set<nat>, s: set<nat>, n: nat, exact: bool)
    requires n <= |blocks|
  {
    forall i: nat {:trigger i in s} :: i < n ==>
      var hit := i in given || Hits(blocks[i], Entries(a, AfterIn(a, u, blocks[..i], s)));
      (hit ==> i in s) && (exact && i in s ==> hit)
  }

  /** A scan has gone through the blocks below `i`, and watches `v` now. */
  ghost predicate Progress(a: set<Address>, u: set<OutPoint>, blocks: seq<Block>, given: set<nat>, s: set<nat>, i: nat, exact: bool,
                           v: set<OutPoint>)
  {
    && i <= |blocks| && (forall j :: j in s ==> j < i)
    && v == AfterIn(a, u, blocks[..i], s)
    && ScansHits(a, u, blocks, given, s, i, exact)
  }

  /** The next block is scanned or skipped. */
  lemma ProgressStep(a: set<Address>, u: set<OutPoint>, blocks: seq<Block>, given: set<nat>, s: set<nat>, i: nat, exact: bool,
                     v: set<OutPoint>, scan: bool)
    requires i < |blocks| && Progress(a, u, blocks, given, s, i, exact, v)
    requires i in given || Hits(blocks[i], Entries(a, v)) ==> scan
    requires exact && scan ==> i in given || Hits(blocks[i], Entries(a, v))
    ensures var s' := if scan then s + {i} else s;
            var m := if scan then Matches(a, v, Items(blocks[i])) else [];
            && Progress(a, u, blocks, given, s', i + 1, exact, if scan then Unspent(a, v, Items(blocks[i])) else v)
            && MatchesIn(a, u, blocks, s', i) == m
            && FoundIn(a, u, blocks, s', i + 1) == FoundIn(a, u, blocks, s, i) + Noted(i, m)
            && forall j :: 0 <= j < i ==> MatchesIn(a, u, blocks, s', j) == MatchesIn(a, u, blocks, s, j)
  {
    hide Hits, Entries, Unspent, Matches, Items, Noted, FoundIn, AfterIn;
    var s' := if scan then s + {i} else s;
    forall j: nat | j <= i
      ensures AfterIn(a, u, blocks[..j], s') == AfterIn(a, u, blocks[..j], s)
    {
      AfterInSame(a, u, blocks[..j], s, s');
    }
    FoundInSame(a, u, blocks, s, s', i);
    FoundInStep(a, u, blocks, s', i);
  }

  /** Block `i` is given, or the plain scan finds nothing in it, or its filter
      commits to something watched by then. */
  ghost predicate Shown(a: set<Address>, u: set<OutPoint>, blocks: seq<Block>, given: set<nat>, i: nat)
    requires i < |blocks|
  {
    || i in given
    || MatchesAt(a, u, blocks, i) == []
    || Hits(blocks[i], Entries(a, UnspentAfter(a, u, blocks[..i])))
  }

  /** What is of interest in the first `n` blocks is shown by their filters. */
  ghost predicate AllShown(a: set<Address>, u: set<OutPoint>, blocks: seq<Block>, given: set<nat>, n: nat)
    requires n <= |blocks|
  {
    forall i :: 0 <= i < n ==> Shown(a, u, blocks, given, i)
  }

  /** The scan so far agrees with the plain scan. */
  ghost predicate Agrees(a: set<Address>, u: set<OutPoint>, blocks: seq<Block>, s: set<nat>, n: nat)
    requires n <= |blocks|
  {
    forall i :: 0 <= i < n ==> MatchesIn(a, u, blocks, s, i) == MatchesAt(a, u, blocks, i)
  }

  /** A scan that agrees with the plain scan also watches the same outpoints. */
  lemma {:induction false} AgreesWatched(a: set<Address>, u: set<OutPoint>, blocks: seq<Block>, s: set<nat>, n: nat)
    requires n <= |blocks| && Agrees(a, u, blocks, s, n)
    ensures AfterIn(a, u, blocks[..n], s) == UnspentAfter(a, u, blocks[..n])
  {
    hide Unspent, Matches, Items, Found, FoundIn, Noted;
    if n == 0 {
    } else {
      AgreesWatched(a, u, blocks, s, n - 1);
      WatchedNext(a, u, blocks, s, n - 1);
    }
  }

  lemma WatchedNext(a: set<Address>, u: set<OutPoint>, blocks: seq<Block>, s: set<nat>, i: nat)
    requires i < |blocks| && MatchesIn(a, u, blocks, s, i) == MatchesAt(a, u, blocks, i)
    requires AfterIn(a, u, blocks[..i], s) == UnspentAfter(a, u, blocks[..i])
    ensures AfterIn(a, u, blocks[..i + 1], s) == UnspentAfter(a, u, blocks[..i + 1])
  {
    FoundInStep(a, u, blocks, s, i);
    ScanStep(a, u, blocks, i);
    hide Unspent, Matches, Items, Found, FoundIn, Noted, AfterIn, UnspentAfter;
    if i !in s {
      NothingFoundNothingAdded(a, UnspentAfter(a, u, blocks[..i]), Items(blocks[i]));
    }
  }

  /** If the filters show what is of interest, the scan agrees with the plain scan,
      whatever other blocks are scanned.  If no others are, it agrees only then. */
  lemma {:induction false} AgreesExactly(a: set<Address>, u: set<OutPoint>, blocks: seq<Block>, given: set<nat>, s: set<nat>, n: nat,
                                         exact: bool)
    requires n <= |blocks| && ScansHits(a, u, blocks, given, s, n, exact)
    ensures AllShown(a, u, blocks, given, n) ==> Agrees(a, u, blocks, s, n)
    ensures exact && Agrees(a, u, blocks, s, n) ==> AllShown(a, u, blocks, given, n)
  {
    hide Shown, MatchesIn, MatchesAt, AfterIn, UnspentAfter, Hits, Entries;
    if n > 0 {
      AgreesExactly(a, u, blocks, given, s, n - 1, exact);
      if Agrees(a, u, blocks, s, n - 1) {
        AgreesWatched(a, u, blocks, s, n - 1);
        AgreesNext(a, u, blocks, given, s, n - 1, exact);
      }
    }
  }

  lemma AgreesNext(a: set<Address>, u: set<OutPoint>, blocks: seq<Block>, given: set<nat>, s: set<nat>, i: nat, exact: bool)
    requires i < |blocks| && ScansHits(a, u, blocks, given, s, i + 1, exact)
    requires AfterIn(a, u, blocks[..i], s) == UnspentAfter(a, u, blocks[..i])
    ensures Shown(a, u, blocks, given, i) ==> MatchesIn(a, u, blocks, s, i) == MatchesAt(a, u, blocks, i)
    ensures exact && MatchesIn(a, u, blocks, s, i) == MatchesAt(a, u, blocks, i) ==> Shown(a, u, blocks, given, i)
  {
    hide Hits, Entries, Unspent, Matches, Items, UnspentAfter, AfterIn;
    assert i in s || i !in s;
  }

  /** What is saved is the plain scan's exactly if the scans agree block by block. */
  lemma {:induction false} FoundAgrees(a: set<Address>, u: set<OutPoint>, blocks: seq<Block>, s: set<nat>, n: nat)
    requires n <= |blocks|
    ensures FoundIn(a, u, blocks, s, n) == Found(a, u, blocks, n) <==> Agrees(a, u, blocks, s, n)
  {
    hide MatchesIn, MatchesAt, FoundIn, Found, Noted;
    FoundUnfolds(a, u, blocks, s, n);
    if n > 0 {
      FoundAgrees(a, u, blocks, s, n - 1);
      FoundBelow(a, u, blocks, s, n - 1);
      SameEnds(FoundIn(a, u, blocks, s, n - 1), Found(a, u, blocks, n - 1), n - 1, MatchesIn(a, u, blocks, s, n - 1),
               MatchesAt(a, u, blocks, n - 1));
      if Agrees(a, u, blocks, s, n - 1) && MatchesIn(a, u, blocks, s, n - 1) == MatchesAt(a, u, blocks, n - 1) {
        assert Agrees(a, u, blocks, s, n);
      }
    }
  }

  lemma FoundUnfolds(a: set<Address>, u: set<OutPoint>, blocks: seq<Block>, s: set<nat>, n: nat)
    requires n <= |blocks|
    ensures n == 0 ==> FoundIn(a, u, blocks, s, n) == Found(a, u, blocks, n)
    ensures n > 0 ==>
              && FoundIn(a, u, blocks, s, n) == FoundIn(a, u, blocks, s, n - 1) + Noted(n - 1, MatchesIn(a, u, blocks, s, n - 1))
              && Found(a, u, blocks, n) == Found(a, u, blocks, n - 1) + Noted(n - 1, MatchesAt(a, u, blocks, n - 1))
  {
  }

  lemma SameEnds(x: seq<(nat, seq<Tx>)>, y: seq<(nat, seq<Tx>)>, i: nat, m: seq<Tx>, m': seq<Tx>)
    requires forall k :: 0 <= k < |x| ==> x[k].0 < i
    requires forall k :: 0 <= k < |y| ==> y[k].0 < i
    ensures x + Noted(i, m) == y + Noted(i, m') <==> x == y && m == m'
  {
    var p, q := x + Noted(i, m), y + Noted(i, m');
    LastNoted(x, i, m);
    LastNoted(y, i, m');
    assert (m == [] ==> p == x) && (m' == [] ==> q == y);
    if p == q && m != [] {
      assert p[|p| - 1] == (i, m) && q[|q| - 1] == (i, m');
      assert x == p[..|p| - 1] && y == q[..|q| - 1];
    }
  }

  lemma LastNoted(x: seq<(nat, seq<Tx>)>, i: nat, m: seq<Tx>)
    requires forall k :: 0 <= k < |x| ==> x[k].0 < i
    ensures var p := x + Noted(i, m);
            m != [] <==> p != [] && p[|p| - 1].0 == i
  {
    if m == [] {
      assert x + Noted(i, m) == x;
    }
  }

  lemma {:induction false} FoundBelow(a: set<Address>, u: set<OutPoint>, blocks: seq<Block>, s: set<nat>, n: nat)
    requires n <= |blocks|
    ensures forall k :: 0 <= k < |FoundIn(a, u, blocks, s, n)| ==> FoundIn(a, u, blocks, s, n)[k].0 < n
    ensures forall k :: 0 <= k < |Found(a, u, blocks, n)| ==> Found(a, u, blocks, n)[k].0 < n
  {
    hide Matches, AfterIn, UnspentAfter, Items;
    if n > 0 {
      FoundBelow(a, u, blocks, s, n - 1);
    }
  }

  // ----- which transactions are shown -----

  /** The transaction commits to something watched. */
  predicate Visible(t: Item, a: set<Address>, u: set<OutPoint>) {
    CommittedBy(t) * Entries(a, u) != {}
  }

  lemma HitsMeans(b: Block, a: set<Address>, u: set<OutPoint>)
    ensures Hits(b, Entries(a, u)) <==> exists k :: 0 <= k < |Items(b)| && Visible(Items(b)[k], a, u)
  {
    if Hits(b, Entries(a, u)) {
      var e :| e in Commitments(b) * Entries(a, u);
      var k :| 0 <= k < |Items(b)| && e in CommittedBy(Items(b)[k]);
      assert e in CommittedBy(Items(b)[k]) * Entries(a, u);
    }
    forall k | 0 <= k < |Items(b)| && Visible(Items(b)[k], a, u)
      ensures Hits(b, Entries(a, u))
    {
      var e :| e in CommittedBy(Items(b)[k]) * Entries(a, u);
      assert e in Commitments(b) * Entries(a, u);
    }
  }

  /** A block is shown if every transaction in it that is relevant to what is
      watched before the block commits to some of that. */
  lemma RelevantVisible(a: set<Address>, u: set<OutPoint>, b: Block)
    requires forall k :: 0 <= k < |Items(b)| && Items(b)[k].Relevant(a, u) ==> Visible(Items(b)[k], a, u)
    ensures Matches(a, u, Items(b)) == [] || Hits(b, Entries(a, u))
  {
    if Matches(a, u, Items(b)) != [] {
      var k := FirstRelevant(a, u, Items(b));
      HitsMeans(b, a, u);
    }
  }

  /** The first transaction found is relevant to what was watched before. */
  lemma {:induction false} FirstRelevant(a: set<Address>, u: set<OutPoint>, items: seq<Item>) returns (k: nat)
    requires Matches(a, u, items) != []
    ensures k < |items| && items[k].Relevant(a, u)
  {
    var n := |items| - 1;
    if Matches(a, u, items[..n]) != [] {
      k := FirstRelevant(a, u, items[..n]);
    } else {
      NothingFoundNothingAdded(a, u, items[..n]);
      k := n;
    }
  }

  /** An output that pays a watched address with that address's own script, where
      the filter commits to outputs. */
  predicate OwnScripts(t: Item, a: set<Address>) {
    forall k :: 0 <= k < |t.tx.outputs| ==>
      forall x :: x in t.tx.outputs[k].addrs && x in a ==> CommitsOutput(t, k) && CommittedScript(t, k) == x.script
  }

  /** A relevant transaction is visible if it pays watched addresses only by their
      own scripts, in outputs that are committed, and spends what is watched only if
      it is no vote or revocation. */
  lemma OrdinaryVisible(t: Item, a: set<Address>, u: set<OutPoint>)
    requires t.Relevant(a, u) && OwnScripts(t, a) && (t.Spends(u) ==> CommitsInputs(t))
    ensures Visible(t, a, u)
  {
    if t.Spends(u) {
      var i :| 0 <= i < |t.Inputs()| && t.Inputs()[i] in u;
      var op := t.Inputs()[i];
      assert op in t.tx.inputs;
      var j :| 0 <= j < |t.tx.inputs| && t.tx.inputs[j] == op;
      assert EntryOf(op) in CommittedBy(t) * Entries(a, u);
    } else {
      var k :| 0 <= k < |t.tx.outputs| && t.PaysAt(a, k);
      var x :| x in t.tx.outputs[k].addrs && x in a;
      assert PkScript(x.script) in CommittedBy(t) * Entries(a, u);
    }
  }

  /** A relevant transaction in a block none of whose transactions is visible is found
      by the plain scan, and the block's filter does not show it. */
  lemma HiddenFound(a: set<Address>, u: set<OutPoint>, b: Block, k: nat)
    requires k < |Items(b)| && Items(b)[k].Relevant(a, u)
    requires forall j :: 0 <= j < |Items(b)| ==> !Visible(Items(b)[j], a, u)
    ensures Items(b)[k].tx in MatchesAt(a, u, [b], 0) && !Shown(a, u, [b], {}, 0)
  {
    hide Hits, Entries, Visible;
    assert [b][..0] == [];
    assert UnspentAfter(a, u, [b][..0]) == u;
    RelevantFound(a, u, Items(b), k);
    HitsMeans(b, a, u);
  }

  lemma NotVisible(a: set<Address>, u: set<OutPoint>, t: Item)
    requires !CommitsInputs(t)
    requires forall k, x :: 0 <= k < |t.tx.outputs| && CommitsOutput(t, k) && x in a ==> CommittedScript(t, k) != x.script
    ensures !Visible(t, a, u)
  {
    forall e | e in CommittedBy(t)
      ensures e !in Entries(a, u)
    {
    }
    assert CommittedBy(t) * Entries(a, u) == {};
  }

  /** A vote that spends a watched ticket and pays by no watched script is found by the
      plain scan, and unless another transaction shows the block, its filter does not
      show it.  This is what a wallet sees that holds only the right to vote. */
  lemma VoteNotShown(a: set<Address>, u: set<OutPoint>, b: Block, k: nat)
    requires k < |b.stake| && b.stake[k].kind == Vote && |b.stake[k].inputs| == 2 && b.stake[k].inputs[1] in u
    requires forall i, x :: 2 <= i < |b.stake[k].outputs| && x in a ==> CommittedScript(Item(b.stake[k], k, STAKE), i) != x.script
    requires forall j :: 0 <= j < |Items(b)| && j != k ==> !Visible(Items(b)[j], a, u)
    ensures b.stake[k] in MatchesAt(a, u, [b], 0) && !Shown(a, u, [b], {}, 0)
  {
    hide Hits, Entries, Visible, Matches, Unspent, MatchesAt, Shown;
    var t := Item(b.stake[k], k, STAKE);
    assert Items(b)[k] == t;
    assert t.Inputs()[0] == b.stake[k].inputs[1];
    NotVisible(a, u, t);
    HiddenFound(a, u, b, k);
  }

  /** So is a payment to a watched address by another script than its own, such as
      one to the public key itself. */
  lemma PaymentNotShown(a: set<Address>, u: set<OutPoint>, b: Block)
    requires |b.regular| > 0 && Item(b.regular[0], 0, REGULAR).Pays(a)
    requires forall i, x :: 0 <= i < |b.regular[0].outputs| && x in a ==> b.regular[0].outputs[i].script != x.script
    requires forall j :: 0 <= j < |Items(b)| && j != |b.stake| ==> !Visible(Items(b)[j], a, u)
    ensures b.regular[0] in MatchesAt(a, u, [b], 0) && !Shown(a, u, [b], {}, 0)
  {
    hide Hits, Entries, Visible, Matches, Unspent, MatchesAt, Shown;
    var t := Item(b.regular[0], 0, REGULAR);
    assert Items(b)[|b.stake|] == t;
    NotVisible(a, u, t);
    HiddenFound(a, u, b, |b.stake|);
  }
}

/** spv/backend.go and spv/sync.go: rescanning a list of blocks through their
    compact filters.  Only blocks whose filter matches are fetched, and after new
    outpoints appear the remaining blocks are tested only against those. */
module Rescans {
  import opened TxScans
  import opened Committed

  function EntrySet(d: seq<Entry>): set<Entry> {
    set e | e in d
  }

  lemma NoEntries()
    ensures EntrySet([]) == {}
  {
  }

  datatype Maybe = Absent | Fetched(block: Block)

  /** The syncer's precise filter (`addrs`, `unspent`) and the filter data kept
      beside it. */
  class WatchFilter {
    var addrs: set<Address>
    var unspent: set<OutPoint>
    var data: seq<Entry>

    /** Both filters hold the same data. */
    ghost predicate InSync()
      reads this
    {
      EntrySet(data) == Entries(addrs, unspent)
    }

    constructor ()
      ensures InSync() && addrs == {} && unspent == {}
    {
      addrs, unspent, data := {}, {}, [];
    }

    /** Adds addresses and outpoints to watch, after forgetting everything when
        `reload` is set. */
    method LoadTxFilter(reload: bool, newAddrs: seq<Address>, outpoints: seq<OutPoint>)
      requires InSync()
      modifies this
      ensures InSync()
      ensures addrs == (if reload then {} else old(addrs)) + set x | x in newAddrs
      ensures unspent == (if reload then {} else old(unspent)) + set o | o in outpoints
    {
      if reload {
        addrs, unspent, data := {}, {}, [];
      }
      hide InSync;
      ghost var a, u := addrs, unspent;
      var i := 0;
      assert newAddrs[..0] == [] && outpoints[..0] == [];
      while i < |newAddrs|
        invariant 0 <= i <= |newAddrs| && InSync()
        invariant unspent == u && addrs == a + set x | x in newAddrs[..i]
      {
        AddAddress(newAddrs[i]);
        i := i + 1;
      }
      assert newAddrs[..i] == newAddrs;
      i := 0;
      while i < |outpoints|
        invariant 0 <= i <= |outpoints| && InSync()
        invariant addrs == a + (set x | x in newAddrs) && unspent == u + set o | o in outpoints[..i]
      {
        AddOutPoint(outpoints[i]);
        i := i + 1;
      }
      assert outpoints[..i] == outpoints;
    }

    method AddAddress(x: Address)
      requires InSync()
      modifies `addrs, `data
      ensures InSync() && addrs == old(addrs) + {x}
    {
      addrs := addrs + {x};
      data := data + [PkScript(x.script)];
    }

    method AddOutPoint(o: OutPoint)
      requires InSync()
      modifies `unspent, `data
      ensures InSync() && unspent == old(unspent) + {o}
    {
      unspent := unspent + {o};
      data := data + [EntryOf(o)];
    }

    /** Watches the outpoints of all outputs of one transaction that pay to a
        watched address. */
    method CheckOutputs(t: Item, fadded: seq<Entry>) returns (pays: bool, added: seq<Entry>)
      requires InSync()
      modifies `unspent, `data
      ensures InSync() && addrs == old(addrs)
      ensures pays <==> t.Pays(addrs)
      ensures unspent == old(unspent) + t.NewOutPoints(addrs)
      ensures AddedSince(old(unspent), unspent, fadded, added)
    {
      pays, added := false, fadded;
      var k := 0;
      while k < |t.tx.outputs|
        invariant 0 <= k <= |t.tx.outputs| && InSync()
        invariant pays <==> exists j :: 0 <= j < k && t.PaysAt(addrs, j)
        invariant unspent == old(unspent) + set j | 0 <= j < k && t.PaysAt(addrs, j) :: OutPoint(t.tx.hash, j, t.tree)
        invariant AddedSince(old(unspent), unspent, fadded, added)
      {
        if t.PaysAt(addrs, k) {
          var op := OutPoint(t.tx.hash, k, t.tree);
          if op !in unspent {
            AddOne(old(unspent), unspent, fadded, added, op);
            AddOutPoint(op);
            added := added + [EntryOf(op)];
          }
          pays := true;
        }
        k := k + 1;
      }
    }

    /** Tests one tree of transactions, collecting matches and new entries. */
    method RescanCheckTransactions(txs: seq<Tx>, tree: nat, matches: seq<Tx>, fadded: seq<Entry>)
      returns (found: seq<Tx>, added: seq<Entry>)
      requires InSync()
      modifies `unspent, `data
      ensures InSync() && addrs == old(addrs)
      ensures unspent == Unspent(addrs, old(unspent), ItemsOf(txs, tree))
      ensures found == matches + Matches(addrs, old(unspent), ItemsOf(txs, tree))
      ensures AddedSince(old(unspent), unspent, fadded, added)
    {
      found, added := matches, fadded;
      var items := ItemsOf(txs, tree);
      ghost var u := unspent;
      var i := 0;
      assert items[..0] == [];
      while i < |items|
        invariant 0 <= i <= |items| && InSync()
        invariant unspent == Unspent(addrs, u, items[..i])
        invariant found == matches + Matches(addrs, u, items[..i])
        invariant AddedSince(u, unspent, fadded, added)
      {
        var t := items[i];
        assert items[..i + 1][..i] == items[..i];
        hide AddedSince, InSync;
        var spends := t.Spends(unspent);
        ghost var v, before := unspent, added;
        var pays;
        pays, added := CheckOutputs(t, added);
        AddMore(u, v, unspent, fadded, before, added);
        if spends || pays {
          found := found + [t.tx];
        }
        i := i + 1;
      }
      assert items[..i] == items;
    }

    /** Tests a whole block; returns its matches and the entries it added. */
    method RescanBlock(b: Block) returns (matches: seq<Tx>, fadded: seq<Entry>)
      requires InSync()
      modifies `unspent, `data
      ensures InSync() && addrs == old(addrs)
      ensures unspent == Unspent(addrs, old(unspent), Items(b))
      ensures matches == Matches(addrs, old(unspent), Items(b))
      ensures old(unspent) <= unspent
      ensures EntrySet(fadded) == set o | o in unspent - old(unspent) :: EntryOf(o)
    {
      hide InSync, Unspent, TxScans.Matches, AddedSince, ItemsOf;
      ghost var u := unspent;
      ScanConcat(addrs, u, ItemsOf(b.stake, STAKE), ItemsOf(b.regular, REGULAR));
      matches, fadded := RescanCheckTransactions(b.stake, STAKE, [], []);
      ghost var v, before := unspent, fadded;
      matches, fadded := RescanCheckTransactions(b.regular, REGULAR, matches, fadded);
      AddMore(u, v, unspent, [], before, fadded);
      AddedFromNone(u, unspent, fadded);
    }

    /** Rescans `blocks` through their filters.  `scanned` are the blocks that are
        fetched and tested: all whose filter shows something watched by then.  What
        is saved, and the data watched afterwards, are those of the plain scan if the
        filters show what is of interest, and without false matches only then. */
    method Rescan(filter: Filter, blocks: seq<Block>) returns (saved: seq<(nat, seq<Tx>)>, ghost scanned: set<nat>)
      requires InSync() && NoFalseNegatives(filter)
      modifies `unspent, `data
      ensures InSync() && addrs == old(addrs)
      ensures Progress(addrs, old(unspent), blocks, {}, scanned, |blocks|, NoFalsePositives(filter), unspent)
      ensures saved == FoundIn(addrs, old(unspent), blocks, scanned, |blocks|)
      ensures AllShown(addrs, old(unspent), blocks, {}, |blocks|) ==>
                saved == Found(addrs, old(unspent), blocks, |blocks|) && unspent == UnspentAfter(addrs, old(unspent), blocks)
      ensures NoFalsePositives(filter) && saved == Found(addrs, old(unspent), blocks, |blocks|) ==>
                AllShown(addrs, old(unspent), blocks, {}, |blocks|)
    {
      hide AllShown, InSync, Progress, Found, FoundIn, UnspentAfter, Pending, Entries, NoFalseNegatives, NoFalsePositives;
      ghost var u, exact := unspent, NoFalsePositives(filter);
      var fetched := new Maybe[|blocks|](_ => Absent);
      var filterData := data;
      var idx := 0;
      saved, scanned := [], {};
      InSyncMeans();
      ScanStarts(addrs, unspent, blocks, fetched[..], {}, exact, EntrySet(data));
      while idx < |blocks|
        invariant 0 <= idx <= |blocks| && fresh(fetched) && InSync()
        invariant Progress(addrs, u, blocks, {}, scanned, idx, exact, unspent)
        invariant saved == FoundIn(addrs, u, blocks, scanned, idx)
        invariant Pending(addrs, unspent, blocks, fetched[..], idx, {}, exact, EntrySet(filterData))
        decreases |blocks| - idx
      {
        FetchMatching(filter, blocks, idx, filterData, fetched, addrs, unspent, {}, exact);
        idx, filterData, saved, scanned := RescanFetched(blocks, fetched, idx, saved, u, scanned, exact);
      }
      ScanEnds(addrs, u, blocks, {}, scanned, exact, unspent);
      FoundAgrees(addrs, u, blocks, scanned, |blocks|);
    }

    lemma InSyncMeans()
      requires InSync()
      ensures EntrySet(data) == Entries(addrs, unspent)
    {
    }

    /** Scans the fetched blocks from `start` on until one adds new outpoints, or
        through the end; blocks that were not fetched are skipped. */
    method RescanFetched(blocks: seq<Block>, fetched: array<Maybe>, start: nat, done: seq<(nat, seq<Tx>)>, ghost u: set<OutPoint>,
                         ghost before: set<nat>, ghost exact: bool)
      returns (next: nat, fadded: seq<Entry>, saved: seq<(nat, seq<Tx>)>, ghost scanned: set<nat>)
      requires InSync() && start < |blocks|
      requires Progress(addrs, u, blocks, {}, before, start, exact, unspent) && done == FoundIn(addrs, u, blocks, before, start)
      requires Pending(addrs, unspent, blocks, fetched[..], start, {}, exact, {}) && fetched.Length == |blocks|
      modifies `unspent, `data
      ensures InSync() && addrs == old(addrs) && start < next <= |blocks|
      ensures Progress(addrs, u, blocks, {}, scanned, next, exact, unspent) && saved == FoundIn(addrs, u, blocks, scanned, next)
      ensures Pending(addrs, unspent, blocks, fetched[..], next, {}, exact, EntrySet(fadded))
    {
      hide InSync, Progress, Pending, FoundIn, Entries, EntrySet, Unspent, TxScans.Matches, Items;
      ghost var v := unspent;
      saved, fadded, scanned := done, [], before;
      var i := start;
      while i < |blocks|
        invariant start <= i <= |blocks| && InSync() && unspent == v && fadded == []
        invariant Progress(addrs, u, blocks, {}, scanned, i, exact, v)
        invariant saved == FoundIn(addrs, u, blocks, scanned, i)
      {
        PendingAt(addrs, v, blocks, fetched[..], start, {}, exact, i);
        ProgressStep(addrs, u, blocks, {}, scanned, i, exact, v, fetched[i].Fetched?);
        if fetched[i].Absent? {
          i := i + 1;
          continue;
        }
        var matchedTxs;
        matchedTxs, fadded := RescanBlock(fetched[i].block);
        scanned := scanned + {i};
        i := i + 1;
        if |matchedTxs| != 0 {
          saved := saved + [(i - 1, matchedTxs)];
          if |fadded| != 0 {
            NewPending(addrs, v, unspent, blocks, fetched[..], start, i, {}, exact, EntrySet(fadded));
            return i, fadded, saved, scanned;
          }
        } else {
          NothingFoundNothingAdded(addrs, v, Items(blocks[i - 1]));
        }
        NothingNew(v, unspent, fadded);
      }
      next := i;
      NoEntries();
      NewPending(addrs, v, unspent, blocks, fetched[..], start, next, {}, exact, {});
    }

    /** Scans the blocks of a branch about to be attached.  `have` holds the
        hashes of blocks that came with their announcement.  The transactions
        reported for each block, and the data watched afterwards, are those of the
        plain scan if the filters of the other blocks show what is of interest, and
        without false matches only then. */
    method ScanChain(filter: Filter, chain: seq<Block>, have: set<nat>)
      returns (found: map<nat, seq<Tx>>, ghost scanned: set<nat>)
      requires InSync() && NoFalseNegatives(filter) && DistinctHashes(chain)
      modifies `unspent, `data
      ensures InSync() && addrs == old(addrs)
      ensures Progress(addrs, old(unspent), chain, Given(chain, have), scanned, |chain|, NoFalsePositives(filter), unspent)
      ensures Reports(found, addrs, old(unspent), chain, scanned, |chain|)
      ensures AllShown(addrs, old(unspent), chain, Given(chain, have), |chain|) ==>
                && (forall i :: 0 <= i < |chain| ==> Reported(found, chain[i].hash) == MatchesAt(addrs, old(unspent), chain, i))
                && unspent == UnspentAfter(addrs, old(unspent), chain)
      ensures NoFalsePositives(filter)
              && (forall i :: 0 <= i < |chain| ==> Reported(found, chain[i].hash) == MatchesAt(addrs, old(unspent), chain, i)) ==>
                AllShown(addrs, old(unspent), chain, Given(chain, have), |chain|)
    {
      hide AllShown, InSync, Progress, Reports, UnspentAfter, Pending, Entries, NoFalseNegatives, NoFalsePositives, MatchesAt;
      hide DistinctHashes;
      ghost var u, exact := unspent, NoFalsePositives(filter);
      ghost var given := Given(chain, have);
      var fetched := new Maybe[|chain|](i requires 0 <= i < |chain| =>
        if chain[i].hash in have then Fetched(chain[i]) else Absent);
      var filterData := data;
      var idx := 0;
      found, scanned := map[], {};
      InSyncMeans();
      ScanStarts(addrs, unspent, chain, fetched[..], given, exact, EntrySet(data));
      NoReports(addrs, u, chain);
      while idx < |chain|
        invariant 0 <= idx <= |chain| && fresh(fetched) && InSync()
        invariant Progress(addrs, u, chain, given, scanned, idx, exact, unspent)
        invariant Reports(found, addrs, u, chain, scanned, idx)
        invariant Pending(addrs, unspent, chain, fetched[..], idx, given, exact, EntrySet(filterData))
        decreases |chain| - idx
      {
        FetchMatching(filter, chain, idx, filterData, fetched, addrs, unspent, given, exact);
        idx, filterData, found, scanned := ScanFetched(chain, fetched, idx, found, u, given, scanned, exact);
      }
      ScanEnds(addrs, u, chain, given, scanned, exact, unspent);
      ReportsAll(found, addrs, u, chain, scanned);
    }

    method ScanFetched(chain: seq<Block>, fetched: array<Maybe>, start: nat, done: map<nat, seq<Tx>>, ghost u: set<OutPoint>,
                       ghost given: set<nat>, ghost before: set<nat>, ghost exact: bool)
      returns (next: nat, fadded: seq<Entry>, found: map<nat, seq<Tx>>, ghost scanned: set<nat>)
      requires InSync() && start < |chain| && DistinctHashes(chain)
      requires Progress(addrs, u, chain, given, before, start, exact, unspent) && Reports(done, addrs, u, chain, before, start)
      requires Pending(addrs, unspent, chain, fetched[..], start, given, exact, {}) && fetched.Length == |chain|
      modifies `unspent, `data
      ensures InSync() && addrs == old(addrs) && start < next <= |chain|
      ensures Progress(addrs, u, chain, given, scanned, next, exact, unspent)
      ensures Reports(found, addrs, u, chain, scanned, next)
      ensures Pending(addrs, unspent, chain, fetched[..], next, given, exact, EntrySet(fadded))
    {
      hide InSync, Progress, Pending, Reports, DistinctHashes, FoundIn, Entries, EntrySet, Unspent, TxScans.Matches, Items, MatchesIn;
      ghost var v := unspent;
      found, fadded, scanned := done, [], before;
      var i := start;
      while i < |chain|
        invariant start <= i <= |chain| && InSync() && unspent == v && fadded == []
        invariant Progress(addrs, u, chain, given, scanned, i, exact, v)
        invariant Reports(found, addrs, u, chain, scanned, i)
      {
        PendingAt(addrs, v, chain, fetched[..], start, given, exact, i);
        ProgressStep(addrs, u, chain, given, scanned, i, exact, v, fetched[i].Fetched?);
        ReportStep(found, addrs, u, chain, scanned, if fetched[i].Fetched? then scanned + {i} else scanned, i);
        if fetched[i].Absent? {
          i := i + 1;
          continue;
        }
        var matches;
        matches, fadded := RescanBlock(fetched[i].block);
        found := found[chain[i].hash := matches];
        scanned := scanned + {i};
        i := i + 1;
        if |fadded| != 0 {
          NewPending(addrs, v, unspent, chain, fetched[..], start, i, given, exact, EntrySet(fadded));
          return i, fadded, found, scanned;
        }
        NothingNew(v, unspent, fadded);
      }
      next := i;
      NoEntries();
      NewPending(addrs, v, unspent, chain, fetched[..], start, next, given, exact, {});
    }
  }

  /** The blocks that came with their announcement. */
  ghost function Given(chain: seq<Block>, have: set<nat>): set<nat> {
    set i: nat | i < |chain| && chain[i].hash in have
  }

  ghost predicate DistinctHashes(chain: seq<Block>) {
    forall i, j :: 0 <= i < j < |chain| ==> chain[i].hash != chain[j].hash
  }

  function Reported(found: map<nat, seq<Tx>>, h: nat): seq<Tx> {
    if h in found then found[h] else []
  }

  /** The report so far is that of scanning the blocks in `s`. */
  ghost predicate Reports(found: map<nat, seq<Tx>>, a: set<Address>, u: set<OutPoint>, chain: seq<Block>, s: set<nat>, n: nat) {
    && n <= |chain|
    && (forall i :: 0 <= i < n ==> Reported(found, chain[i].hash) == MatchesIn(a, u, chain, s, i))
    && (forall i :: n <= i < |chain| ==> chain[i].hash !in found)
  }

  lemma NoReports(a: set<Address>, u: set<OutPoint>, chain: seq<Block>)
    ensures Reports(map[], a, u, chain, {}, 0)
  {
  }

  /** A complete report is the plain scan's exactly if the scans agree. */
  lemma ReportsAll(found: map<nat, seq<Tx>>, a: set<Address>, u: set<OutPoint>, chain: seq<Block>, s: set<nat>)
    requires Reports(found, a, u, chain, s, |chain|)
    ensures Agrees(a, u, chain, s, |chain|) <==>
            forall i :: 0 <= i < |chain| ==> Reported(found, chain[i].hash) == MatchesAt(a, u, chain, i)
  {
    hide MatchesIn, MatchesAt;
    forall i | 0 <= i < |chain|
      ensures Reported(found, chain[i].hash) == MatchesIn(a, u, chain, s, i)
    {
    }
  }

  lemma ReportStep(found: map<nat, seq<Tx>>, a: set<Address>, u: set<OutPoint>, chain: seq<Block>, s: set<nat>, s': set<nat>, i: nat)
    requires i < |chain| && DistinctHashes(chain) && Reports(found, a, u, chain, s, i)
    requires forall j :: 0 <= j < i ==> MatchesIn(a, u, chain, s', j) == MatchesIn(a, u, chain, s, j)
    ensures var m := MatchesIn(a, u, chain, s', i);
            && Reports(found[chain[i].hash := m], a, u, chain, s', i + 1)
            && (m == [] ==> Reports(found, a, u, chain, s', i + 1))
  {
    hide MatchesIn;
    var found' := found[chain[i].hash := MatchesIn(a, u, chain, s', i)];
    forall j | 0 <= j < |chain|
      ensures j != i ==> (chain[j].hash in found' <==> chain[j].hash in found)
      ensures j != i ==> Reported(found', chain[j].hash) == Reported(found, chain[j].hash)
    {
    }
  }

  /** One pass over the filters: every block from `idx` on that is not fetched
      yet and whose filter matches is fetched.  Workers may report matches in any
      order. */
  method FetchMatching(filter: Filter, blocks: seq<Block>, idx: nat, data: seq<Entry>, fetched: array<Maybe>,
                       ghost a: set<Address>, ghost v: set<OutPoint>, ghost given: set<nat>, ghost exact: bool)
    requires NoFalseNegatives(filter) && (exact ==> NoFalsePositives(filter))
    requires Pending(a, v, blocks, fetched[..], idx, given, exact, EntrySet(data)) && idx <= |blocks|
    modifies fetched
    ensures Pending(a, v, blocks, fetched[..], idx, given, exact, {})
  {
    hide NoFalseNegatives, NoFalsePositives, Entries, Hits;
    var todo: set<nat> := set i: nat | idx <= i < |blocks| && fetched[i].Absent?;
    var fmatchidx: seq<nat> := [];
    ghost var before := fetched[..];
    while todo != {}
      invariant forall i :: i in todo ==> idx <= i < |blocks| && before[i].Absent?
      invariant forall j :: 0 <= j < |fmatchidx| ==> MayFetch(filter, blocks, before, idx, data, fmatchidx[j])
      invariant forall i :: idx <= i < |blocks| && before[i].Absent? ==>
        i in todo || i in fmatchidx || !filter(blocks[i], EntrySet(data))
      decreases |todo|
    {
      var i :| i in todo;
      if filter(blocks[i], EntrySet(data)) {
        fmatchidx := fmatchidx + [i];
      }
      todo := todo - {i};
    }
    var j := 0;
    while j < |fmatchidx|
      invariant 0 <= j <= |fmatchidx|
      invariant forall k :: 0 <= k < j ==> fetched[fmatchidx[k]].Fetched?
      invariant forall i :: 0 <= i < |blocks| ==>
        fetched[i] == before[i]
        || (MayFetch(filter, blocks, before, idx, data, i) && fetched[i] == Fetched(blocks[i]))
    {
      fetched[fmatchidx[j]] := Fetched(blocks[fmatchidx[j]]);
      j := j + 1;
    }
    NowTested(filter, a, v, blocks, before, fetched[..], idx, given, exact, data);
  }

  /** A block that a pass over the filters may fetch. */
  predicate MayFetch(filter: Filter, blocks: seq<Block>, before: seq<Maybe>, idx: nat, data: seq<Entry>, i: nat) {
    |before| == |blocks| && idx <= i < |blocks| && before[i].Absent? && filter(blocks[i], EntrySet(data))
  }

  /** The blocks from `idx` on await their turn: what was fetched is genuine; a block
      not fetched was not given, and commits to none of the watched data except
      perhaps to entries of `d`; and with `exact` every other one was given or
      commits to something watched. */
  ghost predicate Pending(a: set<Address>, v: set<OutPoint>, blocks: seq<Block>, fetched: seq<Maybe>, idx: nat, given: set<nat>,
                          exact: bool, d: set<Entry>)
  {
    && |fetched| == |blocks| && d <= Entries(a, v)
    && (forall i :: 0 <= i < |blocks| && fetched[i].Fetched? ==> fetched[i].block == blocks[i])
    && (forall i :: idx <= i < |blocks| && fetched[i].Absent? ==> i !in given && !Hits(blocks[i], Entries(a, v) - d))
    && (forall i :: idx <= i < |blocks| && fetched[i].Fetched? && exact ==> i in given || Hits(blocks[i], Entries(a, v)))
  }

  lemma ScanStarts(a: set<Address>, u: set<OutPoint>, blocks: seq<Block>, fetched: seq<Maybe>, given: set<nat>, exact: bool,
                   d: set<Entry>)
    requires d == Entries(a, u) && |fetched| == |blocks|
    requires forall i :: 0 <= i < |blocks| ==> fetched[i] == if i in given then Fetched(blocks[i]) else Absent
    ensures Pending(a, u, blocks, fetched, 0, given, exact, d)
    ensures Progress(a, u, blocks, given, {}, 0, exact, u) && FoundIn(a, u, blocks, {}, 0) == []
  {
    assert Entries(a, u) - d == {};
    assert blocks[..0] == [];
  }

  /** A complete scan agrees with the plain one if the filters show what is of
      interest, and without false matches only then. */
  lemma ScanEnds(a: set<Address>, u: set<OutPoint>, blocks: seq<Block>, given: set<nat>, s: set<nat>, exact: bool, v: set<OutPoint>)
    requires Progress(a, u, blocks, given, s, |blocks|, exact, v)
    ensures AllShown(a, u, blocks, given, |blocks|) ==> Agrees(a, u, blocks, s, |blocks|) && v == UnspentAfter(a, u, blocks)
    ensures exact && Agrees(a, u, blocks, s, |blocks|) ==> AllShown(a, u, blocks, given, |blocks|)
  {
    hide AllShown, Agrees, AfterIn, UnspentAfter;
    AgreesExactly(a, u, blocks, given, s, |blocks|, exact);
    assert blocks[..|blocks|] == blocks;
    if Agrees(a, u, blocks, s, |blocks|) {
      AgreesWatched(a, u, blocks, s, |blocks|);
    }
  }

  lemma NowTested(filter: Filter, a: set<Address>, v: set<OutPoint>, blocks: seq<Block>, before: seq<Maybe>, fetched: seq<Maybe>,
                  idx: nat, given: set<nat>, exact: bool, data: seq<Entry>)
    requires NoFalseNegatives(filter) && (exact ==> NoFalsePositives(filter))
    requires Pending(a, v, blocks, before, idx, given, exact, EntrySet(data)) && |fetched| == |blocks|
    requires forall i :: 0 <= i < |blocks| ==>
               fetched[i] == before[i] || (MayFetch(filter, blocks, before, idx, data, i) && fetched[i] == Fetched(blocks[i]))
    requires forall i :: idx <= i < |blocks| && fetched[i].Absent? ==> !filter(blocks[i], EntrySet(data))
    ensures Pending(a, v, blocks, fetched, idx, given, exact, {})
  {
    hide Entries, Hits;
    var all, d := Entries(a, v), EntrySet(data);
    assert all - d + d == all == all - {};
    forall i | idx <= i < |blocks|
      ensures fetched[i].Absent? ==> i !in given && !Hits(blocks[i], all - {})
      ensures fetched[i].Fetched? && exact ==> i in given || Hits(blocks[i], all)
    {
      HitsUnion(blocks[i], all - d, d);
    }
  }

  /** What is known of a block when its turn comes. */
  lemma PendingAt(a: set<Address>, v: set<OutPoint>, blocks: seq<Block>, fetched: seq<Maybe>, start: nat, given: set<nat>,
                  exact: bool, i: nat)
    requires Pending(a, v, blocks, fetched, start, given, exact, {}) && start <= i < |blocks| == |fetched|
    ensures fetched[i].Fetched? ==> fetched[i].block == blocks[i]
    ensures i in given || Hits(blocks[i], Entries(a, v)) ==> fetched[i].Fetched?
    ensures exact && fetched[i].Fetched? ==> i in given || Hits(blocks[i], Entries(a, v))
  {
    hide Entries, Hits;
    assert Entries(a, v) - {} == Entries(a, v);
  }

  /** After new outpoints appear, only they have not been tested for. */
  lemma NewPending(a: set<Address>, v: set<OutPoint>, u: set<OutPoint>, blocks: seq<Block>, fetched: seq<Maybe>, start: nat,
                   next: nat, given: set<nat>, exact: bool, d: set<Entry>)
    requires Pending(a, v, blocks, fetched, start, given, exact, {}) && start <= next
    requires v <= u && d == set o | o in u - v :: EntryOf(o)
    ensures Pending(a, u, blocks, fetched, next, given, exact, d)
  {
    EntriesGrow(a, v, u);
    forall e | e in Entries(a, u) - d
      ensures e in Entries(a, v) - {}
    {
    }
    assert d <= Entries(a, u);
    hide Entries, Hits;
    forall i | next <= i < |blocks|
      ensures fetched[i].Absent? ==> !Hits(blocks[i], Entries(a, u) - d)
      ensures fetched[i].Fetched? && exact ==> i in given || Hits(blocks[i], Entries(a, u))
    {
      if Hits(blocks[i], Entries(a, u) - d) {
        HitsMore(blocks[i], Entries(a, u) - d, Entries(a, v) - {});
      }
      if Hits(blocks[i], Entries(a, v)) {
        HitsMore(blocks[i], Entries(a, v), Entries(a, u));
      }
    }
  }

  lemma NothingNew(v: set<OutPoint>, u: set<OutPoint>, fadded: seq<Entry>)
    requires v <= u && EntrySet(fadded) == set o | o in u - v :: EntryOf(o)
    ensures fadded == [] ==> u == v
    ensures u == v ==> fadded == []
  {
    forall o | o in u - v
      ensures fadded != []
    {
      assert EntryOf(o) in EntrySet(fadded);
    }
    assert v + (u - v) == u;
    assert fadded != [] ==> fadded[0] in EntrySet(fadded);
  }

  /** `added` extends `fadded` by entries for exactly the outpoints new in `v`. */
  ghost predicate AddedSince(u: set<OutPoint>, v: set<OutPoint>, fadded: seq<Entry>, added: seq<Entry>) {
    u <= v && EntrySet(added) == EntrySet(fadded) + set o | o in v - u :: EntryOf(o)
  }

  lemma AddOne(u: set<OutPoint>, v: set<OutPoint>, fadded: seq<Entry>, added: seq<Entry>, op: OutPoint)
    requires AddedSince(u, v, fadded, added) && op !in v
    ensures AddedSince(u, v + {op}, fadded, added + [EntryOf(op)])
  {
    assert EntrySet(added + [EntryOf(op)]) == EntrySet(added) + {EntryOf(op)};
    assert v + {op} - u == (v - u) + {op};
  }

  lemma AddedFromNone(u: set<OutPoint>, v: set<OutPoint>, fadded: seq<Entry>)
    requires AddedSince(u, v, [], fadded)
    ensures u <= v && EntrySet(fadded) == set o | o in v - u :: EntryOf(o)
  {
  }

  lemma AddMore(u: set<OutPoint>, v: set<OutPoint>, x: set<OutPoint>, fadded: seq<Entry>, mid: seq<Entry>, added: seq<Entry>)
    requires AddedSince(u, v, fadded, mid) && AddedSince(v, x, mid, added)
    ensures AddedSince(u, x, fadded, added)
  {
    assert x - u == (v - u) + (x - v);
  }
}

/** wallet/addresses.go: the address buffers of all accounts while the wallet is
    connected to the network.  Whatever order addresses are handed out, marked and
    watched in, no unwatched address is handed out. */
module Addresses {
  import opened Gaps
  import opened AddressBuffers

  const EXTERNAL_BRANCH: nat := 0
  const INTERNAL_BRANCH: nat := 1

  /** Something for each branch of an account. */
  datatype Both<T> = Both(external: T, internal: T) {
    function Of(branch: nat): T {
      if branch == EXTERNAL_BRANCH then external else internal
    }

    function With(branch: nat, t: T): Both<T> {
      if branch == EXTERNAL_BRANCH then this.(external := t) else this.(internal := t)
    }
  }

  datatype Child = Child(account: nat, branch: nat, index: nat)

  function Children(account: nat, branch: nat, indexes: set<nat>): set<Child> {
    set i | i in indexes :: Child(account, branch, i)
  }

  function WatchedOf(watched: set<Child>, account: nat, branch: nat): set<nat> {
    set c | c in watched && c.account == account && c.branch == branch :: c.index
  }

  lemma ChildrenOf(watched: set<Child>, account: nat, branch: nat, indexes: set<nat>, account': nat, branch': nat)
    ensures WatchedOf(watched + Children(account, branch, indexes), account', branch') ==
            if account' == account && branch' == branch then WatchedOf(watched, account', branch') + indexes
            else WatchedOf(watched, account', branch')
  {
    var all := watched + Children(account, branch, indexes);
    forall i | i in WatchedOf(watched, account', branch')
      ensures i in WatchedOf(all, account', branch')
    {
      assert Child(account', branch', i) in all;
    }
    forall i | account' == account && branch' == branch && i in indexes
      ensures i in WatchedOf(all, account', branch')
    {
      assert Child(account', branch', i) in all;
    }
  }

  ghost predicate AllCovered(gap: nat, buffers: map<nat, Both<Buffer>>, watched: set<Child>)
    requires gap > 0
  {
    forall a, branch: nat {:trigger buffers[a].Of(branch)} ::
      a in buffers && branch <= INTERNAL_BRANCH ==> Covered(gap, buffers[a].Of(branch), WatchedOf(watched, a, branch))
  }

  ghost predicate BuffersOk(buffers: map<nat, Both<Buffer>>) {
    forall a :: a in buffers ==> BufferOk(buffers[a].external) && BufferOk(buffers[a].internal)
  }

  lemma CoveredOk(gap: nat, buffers: map<nat, Both<Buffer>>, watched: set<Child>)
    requires gap > 0 && AllCovered(gap, buffers, watched)
    ensures BuffersOk(buffers)
  {
    forall a | a in buffers
      ensures BufferOk(buffers[a].external) && BufferOk(buffers[a].internal)
    {
      assert Covered(gap, buffers[a].Of(EXTERNAL_BRANCH), WatchedOf(watched, a, EXTERNAL_BRANCH));
      assert Covered(gap, buffers[a].Of(INTERNAL_BRANCH), WatchedOf(watched, a, INTERNAL_BRANCH));
    }
  }

  ghost predicate RowsOk(rows: map<nat, Both<Row>>) {
    forall a :: a in rows ==> RowOk(rows[a].external) && RowOk(rows[a].internal)
  }

  function LoadedBuffers(rows: map<nat, Both<Row>>): map<nat, Both<Buffer>>
    requires RowsOk(rows)
  {
    map a | a in rows :: Both(LoadedBuffer(rows[a].external), LoadedBuffer(rows[a].internal))
  }

  lemma StaysCovered(gap: nat, buffers: map<nat, Both<Buffer>>, watched: set<Child>, account: nat, branch: nat, b: Buffer,
                     indexes: set<nat>)
    requires gap > 0 && AllCovered(gap, buffers, watched) && account in buffers && branch <= INTERNAL_BRANCH
    requires Covered(gap, b, WatchedOf(watched, account, branch) + indexes)
    ensures AllCovered(gap, buffers[account := buffers[account].With(branch, b)],
                       watched + Children(account, branch, indexes))
  {
    var buffers' := buffers[account := buffers[account].With(branch, b)];
    var watched' := watched + Children(account, branch, indexes);
    forall a, i: nat | a in buffers' && i <= INTERNAL_BRANCH
      ensures Covered(gap, buffers'[a].Of(i), WatchedOf(watched', a, i))
    {
      ChildrenOf(watched, account, branch, indexes, a, i);
      assert a in buffers && Covered(gap, buffers[a].Of(i), WatchedOf(watched, a, i));
    }
  }

  /** The database rows after an address was returned, or not. */
  function RowsAfter(rows: map<nat, Both<Row>>, account: nat, branch: nat, r: Result, persist: Persist): map<nat, Both<Row>>
    requires RowsOk(rows) && account in rows
    requires HandsOut(r) ==> r.outcome.child < HARDENED_KEY_START
  {
    rows[account := rows[account].With(branch, RowAfter(rows[account].Of(branch), r, persist))]
  }

  /** The result of asking the book for the next address of a branch, and its buffers
      after. */
  function BookAfter(gap: nat, buffers: map<nat, Both<Buffer>>, account: nat, branch: nat, policy: Policy, persist: Persist)
    : (Result, map<nat, Both<Buffer>>)
    requires gap > 0 && account in buffers && BufferOk(buffers[account].Of(branch))
  {
    var (r, next) := AfterNext(gap, buffers[account].Of(branch), policy, persist);
    (r, buffers[account := buffers[account].With(branch, next)])
  }

  class AddressBook {
    const gap: nat
    var buffers: map<nat, Both<Buffer>>
    var rows: map<nat, Both<Row>>
    var watched: set<Child>

    ghost predicate Valid()
      reads this
    {
      && 0 < gap < HARDENED_KEY_START
      && buffers.Keys == rows.Keys && RowsOk(rows) && BuffersOk(buffers)
      && AllCovered(gap, buffers, watched)
    }

    /** Opens the wallet's buffers from its database, not connected yet. */
    constructor (gapLimit: nat, db: map<nat, Both<Row>>)
      requires 0 < gapLimit < HARDENED_KEY_START && RowsOk(db)
      ensures gap == gapLimit && rows == db && watched == {}
      ensures buffers == LoadedBuffers(db)
    {
      gap := gapLimit;
      rows := db;
      buffers := LoadedBuffers(db);
      watched := {};
    }

    /** Watches every branch's addresses on connecting. */
    method LoadActiveAddrs()
      requires 0 < gap < HARDENED_KEY_START && RowsOk(rows)
      modifies this`watched
      ensures forall c :: c in watched <==>
                c in old(watched)
                || (c.account in rows && c.branch <= INTERNAL_BRANCH
                    && c.index <= LastLoaded(gap, rows[c.account].Of(c.branch)))
      ensures buffers == LoadedBuffers(rows) ==> Valid()
    {
      var rest := rows.Keys;
      while rest != {}
        invariant rest <= rows.Keys
        invariant forall c :: c in watched <==>
                    c in old(watched)
                    || (c.account in rows && c.account !in rest && c.branch <= INTERNAL_BRANCH
                        && c.index <= LastLoaded(gap, rows[c.account].Of(c.branch)))
        decreases rest
      {
        var a :| a in rest;
        rest := rest - {a};
        var extn := LastLoaded(gap, rows[a].external);
        var intn := LastLoaded(gap, rows[a].internal);
        var external := LoadBranchAddrs(extn);
        var internal := LoadBranchAddrs(intn);
        watched := watched + Children(a, EXTERNAL_BRANCH, external) + Children(a, INTERNAL_BRANCH, internal);
      }
      if buffers == LoadedBuffers(rows) {
        LoadedAll(gap, rows, buffers, watched);
        CoveredOk(gap, buffers, watched);
      }
    }

    /** Every index up to `n`, in batches. */
    method LoadBranchAddrs(n: nat) returns (addrs: set<nat>)
      requires n < HARDENED_KEY_START
      ensures forall i: nat :: (i in addrs <==> i <= n)
    {
      addrs := {};
      var step := 256;
      var child: nat := 0;
      while child <= n
        invariant forall i: nat :: (i in addrs <==> i < child && i <= n)
        decreases n + step - child
      {
        var stop := if n + 1 < child + step then n + 1 else child + step;
        addrs := addrs + Range(child, stop);
        child := child + step;
      }
    }

    /** The database records that an address was used. */
    method MarkUsedAddress(account: nat, branch: nat, index: nat)
      requires Valid() && account in rows && branch <= INTERNAL_BRANCH && index < HARDENED_KEY_START
      modifies this`rows
      ensures Valid()
      ensures rows == old(rows)[account := old(rows[account]).With(branch, MarkUsed(old(rows[account].Of(branch)), index))]
    {
      MarksKeepRows(rows[account].Of(branch), index);
      rows := rows[account := rows[account].With(branch, MarkUsed(rows[account].Of(branch), index))];
    }

    /** An update of the last returned index, at once or deferred. */
    method PersistReturned(account: nat, branch: nat, index: nat)
      requires Valid() && account in rows && branch <= INTERNAL_BRANCH && index < HARDENED_KEY_START
      modifies this`rows
      ensures Valid()
      ensures rows == old(rows)[account := old(rows[account]).With(branch, MarkReturned(old(rows[account].Of(branch)), index))]
    {
      MarksKeepRows(rows[account].Of(branch), index);
      rows := rows[account := rows[account].With(branch, MarkReturned(rows[account].Of(branch), index))];
    }

    /** The next address of a branch.  It is watched, and within the gap limit of
        the last used address unless the caller ignores that limit. */
    method NextAddress(account: nat, branch: nat, policy: Policy, persist: Persist) returns (r: Result)
      requires Valid()
      modifies this
      ensures Valid()
      ensures account !in old(buffers) ==> r == Result(NoAccount)
      ensures account in old(buffers) && branch > INTERNAL_BRANCH ==> r == Result(NoBranch)
      ensures account !in old(buffers) || branch > INTERNAL_BRANCH ==>
                buffers == old(buffers) && rows == old(rows) && watched == old(watched)
      ensures account in old(buffers) && branch <= INTERNAL_BRANCH ==>
                var b := old(buffers[account].Of(branch));
                && BufferOk(b) && (r, buffers) == BookAfter(gap, old(buffers), account, branch, policy, persist)
                && watched == old(watched) + Children(account, branch, Batch(gap, b, policy))
      ensures HandsOut(r) ==>
                && account in old(buffers) && branch <= INTERNAL_BRANCH && r.outcome.child < HARDENED_KEY_START
                && Child(account, branch, r.outcome.child) in watched
                && rows == RowsAfter(old(rows), account, branch, r, persist)
                && (!policy.Ignore? ==>
                     var used := UpTo(old(buffers[account].Of(branch)).lastUsed);
                     used <= r.outcome.child < used + gap)
      ensures !HandsOut(r) ==> rows == old(rows)
    {
      if account !in buffers {
        return Result(NoAccount);
      }
      if branch > INTERNAL_BRANCH {
        return Result(NoBranch);
      }
      hide AfterNext, Children, Batch;
      r := HandOut(account, branch, policy, persist);
      if HandsOut(r) && persist.Now? {
        PersistReturned(account, branch, r.outcome.child);
      }
    }

    /** Hands out the next child of a branch, before the database is updated. */
    method HandOut(account: nat, branch: nat, policy: Policy, persist: Persist) returns (r: Result)
      requires Valid() && account in buffers && branch <= INTERNAL_BRANCH
      modifies this`buffers, this`watched
      ensures Valid()
      ensures var b := old(buffers[account].Of(branch));
              && r == AfterNext(gap, b, policy, persist).0
              && buffers ==
                 old(buffers)[account := old(buffers[account]).With(branch, AfterNext(gap, b, policy, persist).1)]
              && watched == old(watched) + Children(account, branch, Batch(gap, b, policy))
              && (HandsOut(r) ==>
                   && r.outcome.child < HARDENED_KEY_START
                   && Child(account, branch, r.outcome.child) in watched
                   && (!policy.Ignore? ==> UpTo(b.lastUsed) <= r.outcome.child < UpTo(b.lastUsed) + gap))
    {
      var alb := buffers[account].Of(branch);
      assert BufferOk(alb);
      var next, batch;
      r, next, batch := NextChild(alb, policy, persist);
      HandedCovered(gap, buffers, watched, account, branch, policy, persist);
      hide AllCovered, BuffersOk, AfterNext, Batch, Children, RowsOk, BufferOk;
      watched := watched + Children(account, branch, batch);
      buffers := buffers[account := buffers[account].With(branch, next)];
    }

    /** The next child of one buffer, and the batch watched for it. */
    method NextChild(b: Buffer, policy: Policy, persist: Persist) returns (r: Result, next: Buffer, batch: set<nat>)
      requires 0 < gap < HARDENED_KEY_START && BufferOk(b)
      ensures batch == Batch(gap, b, policy)
      ensures (r, next) == AfterNext(gap, b, policy, persist)
    {
      next := b;
      batch := {};
      if next.cursor >= gap {
        match policy {
          case Error =>
            return Result(GapLimit), next, batch;
          case Ignore =>
            if next.cursor % gap == 0 {
              var from := Add32(Add32(next.lastUsed, 1), next.cursor);
              if from + gap > HARDENED_KEY_START {
                return Result(Underivable), next, batch;
              }
              batch := Range(from, from + gap);
            }
          case Wrap =>
            next := next.(cursor := 0);
        }
      }
      var childIndex := Add32(Add32(next.lastUsed, 1), next.cursor);
      if childIndex >= HARDENED_KEY_START {
        return Result(Exhausted), next, batch;
      }
      if persist.Failing? {
        return NotPersisted, next, batch;
      }
      r, next := Result(Returned(childIndex)), next.(cursor := next.cursor + 1);
    }

    /** Every buffer catches up with the database, and what it may hand out next
        is watched. */
    method WatchFutureAddresses()
      requires Valid()
      modifies this`buffers, this`watched
      ensures Valid() && buffers.Keys == old(buffers).Keys && old(watched) <= watched
      ensures forall a :: a in buffers ==>
                buffers[a] == Both(CaughtUp(gap, old(buffers[a].external), rows[a].external),
                                   CaughtUp(gap, old(buffers[a].internal), rows[a].internal))
    {
      var rest := buffers.Keys;
      while rest != {}
        invariant rest <= buffers.Keys == old(buffers).Keys
        invariant Valid() && old(watched) <= watched
        invariant forall a :: a in rest ==> buffers[a] == old(buffers[a])
        invariant forall a :: a in buffers && a !in rest ==>
                    buffers[a] == Both(CaughtUp(gap, old(buffers[a].external), rows[a].external),
                                       CaughtUp(gap, old(buffers[a].internal), rows[a].internal))
        decreases rest
      {
        hide AllCovered, CaughtUp;
        var a :| a in rest;
        rest := rest - {a};
        WatchAccount(a);
      }
    }

    method WatchAccount(a: nat)
      requires Valid() && a in buffers
      modifies this`buffers, this`watched
      ensures Valid() && old(watched) <= watched
      ensures buffers == old(buffers)[a := Both(CaughtUp(gap, old(buffers[a].external), rows[a].external),
                                                CaughtUp(gap, old(buffers[a].internal), rows[a].internal))]
    {
      var external, internal := buffers[a].external, buffers[a].internal;
      var row := rows[a];
      hide AllCovered, Children, WatchedOf, Range;
      CatchUpCovered(gap, buffers, watched, a, row);
      AheadRanges(gap, external, row.external);
      AheadRanges(gap, internal, row.internal);
      hide CaughtUp, AheadWatched;
      var startExt, endExt := Add32(Add32(external.lastUsed, 1), gap), Add32(Add32(row.external.lastReturned, 1), gap);
      var startInt, endInt := Add32(Add32(internal.lastUsed, 1), gap), Add32(Add32(row.internal.lastReturned, 1), gap);
      if endExt <= startExt && endInt <= startInt {
        assert buffers == buffers[a := Both(external, internal)];
        NoneAhead(a, startExt, endExt);
        NoneAhead(a, startInt, endInt);
        return;
      }
      watched := watched + Children(a, EXTERNAL_BRANCH, ChildRange(startExt, endExt))
                         + Children(a, INTERNAL_BRANCH, ChildRange(startInt, endInt));
      if endExt > startExt {
        external := Buffer(row.external.lastUsed, Sub32(row.external.lastReturned, row.external.lastUsed));
      }
      if endInt > startInt {
        internal := Buffer(row.internal.lastUsed, Sub32(row.internal.lastReturned, row.internal.lastUsed));
      }
      buffers := buffers[a := Both(external, internal)];
      CoveredOk(gap, buffers, watched);
    }
  }

  lemma NoneAhead(a: nat, start: nat, end: nat)
    requires end <= start
    ensures forall branch :: Children(a, branch, ChildRange(start, end)) == {}
  {
  }

  lemma AheadRanges(gap: nat, b: Buffer, r: Row)
    requires 0 < gap < HARDENED_KEY_START && BufferOk(b) && RowOk(r)
    ensures var start, end := Add32(Add32(b.lastUsed, 1), gap), Add32(Add32(r.lastReturned, 1), gap);
            && AheadWatched(gap, b, r) == ChildRange(start, end)
            && CaughtUp(gap, b, r) == if end > start then LoadedBuffer(r) else b
  {
  }

  /** The children there are in a half open range. */
  function ChildRange(start: nat, end: nat): set<nat> {
    Range(start, if end < HARDENED_KEY_START then end else HARDENED_KEY_START)
  }

  /** Handing out the next child of a branch, or failing to, keeps all branches
      covered. */
  lemma HandedCovered(gap: nat, buffers: map<nat, Both<Buffer>>, watched: set<Child>, account: nat, branch: nat,
                      policy: Policy, persist: Persist)
    requires gap > 0 && AllCovered(gap, buffers, watched) && account in buffers && branch <= INTERNAL_BRANCH
    requires BufferOk(buffers[account].Of(branch))
    ensures var b := buffers[account].Of(branch);
            var (r, next) := AfterNext(gap, b, policy, persist);
            var watched' := watched + Children(account, branch, Batch(gap, b, policy));
            && AllCovered(gap, buffers[account := buffers[account].With(branch, next)], watched')
            && BuffersOk(buffers[account := buffers[account].With(branch, next)])
            && (HandsOut(r) ==>
                 && r.outcome.child < HARDENED_KEY_START
                 && Child(account, branch, r.outcome.child) in watched'
                 && (!policy.Ignore? ==> UpTo(b.lastUsed) <= r.outcome.child < UpTo(b.lastUsed) + gap))
  {
    var b := buffers[account].Of(branch);
    var (r, next) := AfterNext(gap, b, policy, persist);
    var batch := Batch(gap, b, policy);
    assert Covered(gap, b, WatchedOf(watched, account, branch));
    NextIsWatched(gap, b, WatchedOf(watched, account, branch), policy);
    hide AllCovered, Covered, Children, WatchedOf, RoundUp, Rewound, NextOutcome, Batch;
    StaysCovered(gap, buffers, watched, account, branch, next, batch);
    CoveredOk(gap, buffers[account := buffers[account].With(branch, next)], watched + Children(account, branch, batch));
    if HandsOut(r) {
      WatchedChild(watched, account, branch, batch, r.outcome.child);
    }
  }

  lemma WatchedChild(watched: set<Child>, account: nat, branch: nat, indexes: set<nat>, index: nat)
    requires index in WatchedOf(watched, account, branch) + indexes
    ensures Child(account, branch, index) in watched + Children(account, branch, indexes)
  {
  }

  /** Catching up both branches of an account keeps all covered. */
  lemma CatchUpCovered(gap: nat, buffers: map<nat, Both<Buffer>>, watched: set<Child>, a: nat, row: Both<Row>)
    requires 0 < gap < HARDENED_KEY_START && AllCovered(gap, buffers, watched) && a in buffers
    requires RowOk(row.external) && RowOk(row.internal)
    ensures BufferOk(buffers[a].external) && BufferOk(buffers[a].internal)
    ensures AllCovered(gap, buffers[a := Both(CaughtUp(gap, buffers[a].external, row.external),
                                              CaughtUp(gap, buffers[a].internal, row.internal))],
                       watched + Children(a, EXTERNAL_BRANCH, AheadWatched(gap, buffers[a].external, row.external))
                               + Children(a, INTERNAL_BRANCH, AheadWatched(gap, buffers[a].internal, row.internal)))
  {
    var external, internal := buffers[a].Of(EXTERNAL_BRANCH), buffers[a].Of(INTERNAL_BRANCH);
    assert Covered(gap, external, WatchedOf(watched, a, EXTERNAL_BRANCH));
    assert Covered(gap, internal, WatchedOf(watched, a, INTERNAL_BRANCH));
    AheadIsCovered(gap, external, row.external, WatchedOf(watched, a, EXTERNAL_BRANCH));
    AheadIsCovered(gap, internal, row.internal, WatchedOf(watched, a, INTERNAL_BRANCH));
    hide AllCovered, Covered, CaughtUp, AheadWatched, WatchedOf, Children;
    var extended := AheadWatched(gap, external, row.external);
    StaysCovered(gap, buffers, watched, a, EXTERNAL_BRANCH, CaughtUp(gap, external, row.external), extended);
    var buffers' := buffers[a := buffers[a].With(EXTERNAL_BRANCH, CaughtUp(gap, external, row.external))];
    ChildrenOf(watched, a, EXTERNAL_BRANCH, extended, a, INTERNAL_BRANCH);
    StaysCovered(gap, buffers', watched + Children(a, EXTERNAL_BRANCH, extended), a, INTERNAL_BRANCH,
                 CaughtUp(gap, internal, row.internal), AheadWatched(gap, internal, row.internal));
    assert buffers'[a := buffers'[a].With(INTERNAL_BRANCH, CaughtUp(gap, internal, row.internal))]
           == buffers[a := Both(CaughtUp(gap, external, row.external), CaughtUp(gap, internal, row.internal))];
  }

  lemma LoadedAll(gap: nat, rows: map<nat, Both<Row>>, buffers: map<nat, Both<Buffer>>, watched: set<Child>)
    requires 0 < gap < HARDENED_KEY_START && RowsOk(rows)
    requires buffers == LoadedBuffers(rows)
    requires forall c: Child ::
               (c.account in rows && c.branch <= INTERNAL_BRANCH && c.index <= LastLoaded(gap, rows[c.account].Of(c.branch)))
               ==> c in watched
    ensures AllCovered(gap, buffers, watched)
  {
    forall a, branch: nat | a in buffers && branch <= INTERNAL_BRANCH
      ensures Covered(gap, buffers[a].Of(branch), WatchedOf(watched, a, branch))
    {
      var row := rows[a].Of(branch);
      forall i: nat | i <= LastLoaded(gap, row)
        ensures i in WatchedOf(watched, a, branch)
      {
        assert Child(a, branch, i) in watched;
      }
      LoadedIsCovered(gap, row, WatchedOf(watched, a, branch));
    }
  }
}

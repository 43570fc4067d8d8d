/** Which addresses are handed out, one after the other (wallet/addresses.go): no address
    is reused unless the caller asks for it, or a deferred update comes too late. */
module AddressOrder {
  import opened Gaps
  import opened Powers
  import opened AddressBuffers
  import opened Addresses

  /** The index a buffer hands out next, if nothing hinders it. */
  function Following(b: Buffer): nat
    requires BufferOk(b)
  {
    UpTo(b.lastUsed) + b.cursor
  }

  /** One request, without the functions it is made of: below the gap limit every policy
      hands out the following index.  At the limit one policy refuses, one starts over
      behind the last used index, and one goes on if the next batch exists.  Only an
      address handed out moves the cursor. */
  lemma NextExactly(gap: nat, b: Buffer, policy: Policy, persist: Persist)
    requires 0 < gap && BufferOk(b)
    ensures var (r, next) := AfterNext(gap, b, policy, persist);
            var start := if b.cursor >= gap && policy.Wrap? then b.(cursor := 0) else b;
            if b.cursor >= gap && policy.Error? then r == Result(GapLimit) && next == b
            else if b.cursor >= gap && policy.Ignore? && b.cursor % gap == 0 && Following(b) + gap > HARDENED_KEY_START then
              r == Result(Underivable) && next == b
            else if Following(start) >= HARDENED_KEY_START then r == Result(Exhausted) && next == start
            else if persist.Failing? then r == NotPersisted && next == start
            else r == Result(Returned(Following(start))) && next == start.(cursor := start.cursor + 1)
  {
  }

  lemma NextOk(gap: nat, b: Buffer, policy: Policy, persist: Persist)
    requires 0 < gap && BufferOk(b)
    ensures BufferOk(AfterNext(gap, b, policy, persist).1)
    ensures AfterNext(gap, b, policy, persist).1.lastUsed == b.lastUsed
  {
  }

  // ----- requests on one branch -----

  datatype Request = Request(policy: Policy, persist: Persist)

  /** The children handed out by some requests, in order. */
  function Handed(gap: nat, b: Buffer, reqs: seq<Request>): seq<nat>
    requires 0 < gap && BufferOk(b)
    decreases |reqs|
  {
    if reqs == [] then []
    else
      NextOk(gap, b, reqs[0].policy, reqs[0].persist);
      var (r, next) := AfterNext(gap, b, reqs[0].policy, reqs[0].persist);
      (if HandsOut(r) then [r.outcome.child] else []) + Handed(gap, next, reqs[1..])
  }

  /** Without the wrapping policy, the addresses handed out are consecutive, whatever
      requests fail in between. */
  lemma {:induction false} Consecutive(gap: nat, b: Buffer, reqs: seq<Request>, i: nat)
    requires 0 < gap && BufferOk(b) && i < |Handed(gap, b, reqs)|
    requires forall k :: 0 <= k < |reqs| ==> !reqs[k].policy.Wrap?
    ensures Handed(gap, b, reqs)[i] == Following(b) + i
    decreases |reqs|
  {
    NextOk(gap, b, reqs[0].policy, reqs[0].persist);
    NextExactly(gap, b, reqs[0].policy, reqs[0].persist);
    var (r, next) := AfterNext(gap, b, reqs[0].policy, reqs[0].persist);
    if !HandsOut(r) {
      Consecutive(gap, next, reqs[1..], i);
    } else if i > 0 {
      Consecutive(gap, next, reqs[1..], i - 1);
    }
  }

  /** With it they go round: within the gap limit of the last used one, and back to the
      first of these. */
  lemma {:induction false} WrapsAround(gap: nat, b: Buffer, reqs: seq<Request>, i: nat)
    requires 0 < gap && BufferOk(b) && i < |Handed(gap, b, reqs)|
    requires forall k :: 0 <= k < |reqs| ==> reqs[k].policy.Wrap?
    ensures Handed(gap, b, reqs)[i] == UpTo(b.lastUsed) + ((if b.cursor >= gap then 0 else b.cursor) + i) % gap
    decreases |reqs|
  {
    var (r, next) := AfterNext(gap, b, reqs[0].policy, reqs[0].persist);
    WrapStep(gap, b, reqs[0].policy, reqs[0].persist, i);
    hide AfterNext, UpTo, BufferOk;
    if !HandsOut(r) {
      WrapsAround(gap, next, reqs[1..], i);
    } else if i > 0 {
      WrapsAround(gap, next, reqs[1..], i - 1);
    }
  }

  lemma WrapStep(gap: nat, b: Buffer, policy: Policy, persist: Persist, i: nat)
    requires 0 < gap && BufferOk(b) && policy.Wrap?
    ensures var (r, next) := AfterNext(gap, b, policy, persist);
            var c := if b.cursor >= gap then 0 else b.cursor;
            var c' := if next.cursor >= gap then 0 else next.cursor;
            && BufferOk(next)
            && (!HandsOut(r) ==> UpTo(next.lastUsed) + (c' + i) % gap == UpTo(b.lastUsed) + (c + i) % gap)
            && (HandsOut(r) ==> r.outcome.child == UpTo(b.lastUsed) + (c + 0) % gap)
            && (HandsOut(r) && i > 0 ==> UpTo(next.lastUsed) + (c' + (i - 1)) % gap == UpTo(b.lastUsed) + (c + i) % gap)
  {
    NextOk(gap, b, policy, persist);
    NextExactly(gap, b, policy, persist);
    var c := if b.cursor >= gap then 0 else b.cursor;
    FloorIs(c, gap, 0);
    if i > 0 {
      Around(c, i, gap);
    }
  }

  lemma Around(c: nat, i: nat, gap: nat)
    requires c < gap && i > 0
    ensures ((if c + 1 >= gap then 0 else c + 1) + (i - 1)) % gap == (c + i) % gap
  {
    if c + 1 >= gap {
      Residue(c + i, i - 1, gap);
    }
  }

  lemma Residue(x: nat, y: nat, gap: nat)
    requires gap > 0 && x == y + gap
    ensures x % gap == y % gap
  {
    var q := y / gap;
    assert x == (q + 1) * gap + y % gap;
    FloorIs(x, gap, q + 1);
  }

  /** So as many requests in a row as the gap limit never hand out an address twice. */
  lemma WrapDistinct(gap: nat, b: Buffer, reqs: seq<Request>, i: nat, j: nat)
    requires 0 < gap && BufferOk(b) && i < j < |Handed(gap, b, reqs)| && j - i < gap
    requires forall k :: 0 <= k < |reqs| ==> reqs[k].policy.Wrap?
    ensures Handed(gap, b, reqs)[i] != Handed(gap, b, reqs)[j]
  {
    WrapsAround(gap, b, reqs, i);
    WrapsAround(gap, b, reqs, j);
    var c := if b.cursor >= gap then 0 else b.cursor;
    NotAround(c + i, c + j, gap);
  }

  lemma NotAround(x: nat, y: nat, gap: nat)
    requires x < y < x + gap
    ensures x % gap != y % gap
  {
    if x % gap == y % gap {
      var p, q := x / gap, y / gap;
      assert x == p * gap + x % gap && y == q * gap + y % gap;
      assert (q - p) * gap == y - x;
      if q <= p {
        MulLe(q - p, 0, gap);
      } else {
        MulLe(1, q - p, gap);
      }
    }
  }

  // ----- the whole book -----

  datatype BookRequest = BookRequest(account: nat, branch: nat, request: Request)

  /** The requests made to one branch. */
  function ToBranch(reqs: seq<BookRequest>, account: nat, branch: nat): seq<Request> {
    if reqs == [] then []
    else
      (if reqs[0].account == account && reqs[0].branch == branch then [reqs[0].request] else [])
      + ToBranch(reqs[1..], account, branch)
  }

  ghost predicate Asks(buffers: map<nat, Both<Buffer>>, reqs: seq<BookRequest>) {
    && BuffersOk(buffers)
    && forall k :: 0 <= k < |reqs| ==> reqs[k].account in buffers && reqs[k].branch <= INTERNAL_BRANCH
  }

  lemma BookOk(gap: nat, buffers: map<nat, Both<Buffer>>, req: BookRequest)
    requires 0 < gap && BuffersOk(buffers) && req.account in buffers && req.branch <= INTERNAL_BRANCH
    ensures var (r, buffers') := BookAfter(gap, buffers, req.account, req.branch, req.request.policy, req.request.persist);
            && buffers'.Keys == buffers.Keys && BuffersOk(buffers')
            && (r, buffers'[req.account].Of(req.branch)) ==
               AfterNext(gap, buffers[req.account].Of(req.branch), req.request.policy, req.request.persist)
            && forall account, branch: nat :: account in buffers && branch <= INTERNAL_BRANCH ==>
                 (account == req.account && branch == req.branch) || buffers'[account].Of(branch) == buffers[account].Of(branch)
  {
    NextOk(gap, buffers[req.account].Of(req.branch), req.request.policy, req.request.persist);
  }

  /** The children of one branch that requests to all of them hand out. */
  ghost function BookHanded(gap: nat, buffers: map<nat, Both<Buffer>>, reqs: seq<BookRequest>, account: nat, branch: nat): seq<nat>
    requires 0 < gap && Asks(buffers, reqs)
    decreases |reqs|
  {
    if reqs == [] then []
    else
      var req := reqs[0];
      BookOk(gap, buffers, req);
      var (r, buffers') := BookAfter(gap, buffers, req.account, req.branch, req.request.policy, req.request.persist);
      (if HandsOut(r) && req.account == account && req.branch == branch then [r.outcome.child] else [])
      + BookHanded(gap, buffers', reqs[1..], account, branch)
  }

  /** Branches do not disturb each other: what a branch hands out depends on the requests
      to it alone. */
  lemma {:induction false} BranchesApart(gap: nat, buffers: map<nat, Both<Buffer>>, reqs: seq<BookRequest>, account: nat, branch: nat)
    requires 0 < gap && Asks(buffers, reqs) && account in buffers && branch <= INTERNAL_BRANCH
    ensures BufferOk(buffers[account].Of(branch))
    ensures BookHanded(gap, buffers, reqs, account, branch) ==
            Handed(gap, buffers[account].Of(branch), ToBranch(reqs, account, branch))
    decreases |reqs|
  {
    if reqs != [] {
      var req := reqs[0];
      BookOk(gap, buffers, req);
      var (r, buffers') := BookAfter(gap, buffers, req.account, req.branch, req.request.policy, req.request.persist);
      hide AfterNext, BookAfter;
      BranchesApart(gap, buffers', reqs[1..], account, branch);
      var mine := ToBranch(reqs, account, branch);
      if req.account == account && req.branch == branch {
        assert mine[0] == req.request && mine[1..] == ToBranch(reqs[1..], account, branch);
      } else {
        assert mine == ToBranch(reqs[1..], account, branch);
      }
    }
  }

  /** In every sequence of requests to any branches of the book, the children of one
      branch are consecutive, if none of its own requests wraps. */
  lemma BookConsecutive(gap: nat, buffers: map<nat, Both<Buffer>>, reqs: seq<BookRequest>, account: nat, branch: nat, i: nat)
    requires 0 < gap && Asks(buffers, reqs) && account in buffers && branch <= INTERNAL_BRANCH
    requires i < |BookHanded(gap, buffers, reqs, account, branch)|
    requires forall k :: 0 <= k < |reqs| && reqs[k].account == account && reqs[k].branch == branch ==> !reqs[k].request.policy.Wrap?
    ensures BufferOk(buffers[account].Of(branch))
    ensures BookHanded(gap, buffers, reqs, account, branch)[i] == Following(buffers[account].Of(branch)) + i
  {
    BranchesApart(gap, buffers, reqs, account, branch);
    NoWraps(reqs, account, branch);
    Consecutive(gap, buffers[account].Of(branch), ToBranch(reqs, account, branch), i);
  }

  lemma {:induction false} NoWraps(reqs: seq<BookRequest>, account: nat, branch: nat)
    requires forall k :: 0 <= k < |reqs| && reqs[k].account == account && reqs[k].branch == branch ==> !reqs[k].request.policy.Wrap?
    ensures forall k :: 0 <= k < |ToBranch(reqs, account, branch)| ==> !ToBranch(reqs, account, branch)[k].policy.Wrap?
  {
    if reqs != [] {
      NoWraps(reqs[1..], account, branch);
    }
  }

  // ----- runs with use and catching up in between -----

  /** The child a step hands out, if any. */
  ghost function Out(gap: nat, s: BranchState, step: Step): seq<nat>
    requires GoodState(gap, s)
  {
    match step
    case Next(policy, persist) =>
      var r := AfterNext(gap, s.buffer, policy, persist).0;
      if HandsOut(r) then [r.outcome.child] else []
    case _ => []
  }

  /** The children handed out in a run of a branch. */
  ghost function RunHanded(gap: nat, s: BranchState, steps: seq<Step>): seq<nat>
    requires GoodState(gap, s) && forall k :: 0 <= k < |steps| ==> Indexed(steps[k])
    decreases |steps|
  {
    if steps == [] then []
    else
      StepSafe(gap, s, steps[0]);
      Out(gap, s, steps[0]) + RunHanded(gap, Apply(gap, s, steps[0]), steps[1..])
  }

  /** No request wraps, and what is handed out is recorded at once. */
  predicate RecordedAtOnce(step: Step) {
    match step
    case Next(policy, persist) => !policy.Wrap? && !persist.Deferred?
    case Record(_) => false
    case _ => true
  }

  /** Neither the buffer nor the database goes back below `low`. */
  ghost predicate FromLow(s: BranchState, low: nat) {
    && BufferOk(s.buffer) && RowOk(s.row)
    && low <= Following(s.buffer) && low <= UpTo(s.row.lastReturned)
  }

  lemma StepFromLow(gap: nat, s: BranchState, step: Step, low: nat)
    requires GoodState(gap, s) && Indexed(step) && RecordedAtOnce(step) && FromLow(s, low)
    ensures GoodState(gap, Apply(gap, s, step))
    ensures var s' := Apply(gap, s, step);
            var out := Out(gap, s, step);
            if out == [] then FromLow(s', low) else |out| == 1 && low <= out[0] && FromLow(s', out[0] + 1)
  {
    StepSafe(gap, s, step);
    match step
    case Next(policy, persist) =>
      NextExactly(gap, s.buffer, policy, persist);
      NextOk(gap, s.buffer, policy, persist);
      var r := AfterNext(gap, s.buffer, policy, persist).0;
      if HandsOut(r) {
        MarksKeepRows(s.row, r.outcome.child);
      }
      hide AfterNext, Covered, Batch, MarkReturned;
    case Use(index) =>
      MarksKeepRows(s.row, index);
    case Watch =>
      CaughtUpExactly(gap, s.buffer, s.row);
  }

  /** Catching up, without the functions it is made of: a buffer whose last used index
      the database's last returned one has passed takes over the database's indexes, and
      goes on behind the last returned one.  Otherwise it stays. */
  lemma CaughtUpExactly(gap: nat, b: Buffer, r: Row)
    requires 0 < gap < HARDENED_KEY_START && BufferOk(b) && RowOk(r)
    ensures var next := CaughtUp(gap, b, r);
            if UpTo(b.lastUsed) < UpTo(r.lastReturned) then
              BufferOk(next) && next.lastUsed == r.lastUsed && Following(next) == UpTo(r.lastReturned)
            else next == b
  {
    AheadBounds(gap, b, r);
  }

  /** A buffer loaded from the database goes on behind the last returned index, too. */
  lemma LoadedExactly(r: Row)
    requires RowOk(r)
    ensures var b := LoadedBuffer(r);
            BufferOk(b) && b.lastUsed == r.lastUsed && Following(b) == UpTo(r.lastReturned)
  {
  }

  /** Every child is at least `low`, and higher than all before. */
  ghost predicate Rising(children: seq<nat>, low: nat) {
    && (forall i :: 0 <= i < |children| ==> low <= children[i])
    && forall i, j :: 0 <= i < j < |children| ==> children[i] < children[j]
  }

  /** In every run in which returned indexes are recorded at once and no request wraps,
      each address handed out is higher than all before, whatever is used, recorded as
      used or watched in between. */
  lemma {:induction false} NeverReused(gap: nat, s: BranchState, steps: seq<Step>, low: nat)
    requires GoodState(gap, s) && FromLow(s, low)
    requires forall k :: 0 <= k < |steps| ==> Indexed(steps[k]) && RecordedAtOnce(steps[k])
    ensures Rising(RunHanded(gap, s, steps), low)
    decreases |steps|
  {
    hide GoodState, FromLow, Out, Apply, Indexed, RecordedAtOnce, Rising;
    if steps == [] {
      NothingRises(low);
    }
    if steps != [] {
      StepFromLow(gap, s, steps[0], low);
      var s' := Apply(gap, s, steps[0]);
      var out, rest := Out(gap, s, steps[0]), RunHanded(gap, s', steps[1..]);
      NeverReused(gap, s', steps[1..], if out == [] then low else out[0] + 1);
      RisesFrom(out, rest, low);
    }
  }

  lemma NothingRises(low: nat)
    ensures Rising([], low)
  {
  }

  lemma RisesFrom(out: seq<nat>, rest: seq<nat>, low: nat)
    requires out == [] || (|out| == 1 && low <= out[0])
    requires Rising(rest, if out == [] then low else out[0] + 1)
    ensures Rising(out + rest, low)
  {
  }

  /** If the record of an address is deferred, and the buffer catches up before it is
      made, the address is handed out again: exactly if an address had been returned
      since the last use. */
  lemma DeferredReuse(gap: nat, s: BranchState, policy: Policy)
    requires GoodState(gap, s) && s.buffer == LoadedBuffer(s.row)
    requires s.buffer.cursor + 1 < gap && Following(s.buffer) + 1 < HARDENED_KEY_START
    ensures var steps := [Next(policy, Deferred), Watch, Next(policy, Deferred)];
            var handed := RunHanded(gap, s, steps);
            && |handed| == 2 && handed[0] == Following(s.buffer)
            && (handed[1] == handed[0] <==> UpTo(s.row.lastUsed) < UpTo(s.row.lastReturned))
            && (handed[1] != handed[0] ==> handed[1] == handed[0] + 1)
  {
    var first := Next(policy, Deferred);
    StepSafe(gap, s, first);
    var s1 := Apply(gap, s, first);
    StepSafe(gap, s1, Watch);
    var s2 := Apply(gap, s1, Watch);
    assert s1.row == s.row && s1.buffer == AfterNext(gap, s.buffer, policy, Deferred).1;
    assert s2.buffer == CaughtUp(gap, s1.buffer, s.row);
    ThreeSteps(gap, s, first, Watch, first);
    OutIs(gap, s, policy);
    OutIs(gap, s2, policy);
    assert Out(gap, s1, Watch) == [];
    hide AfterNext, Covered, Batch, CaughtUp, RunHanded, Apply, Out, GoodState;
    CaughtUpExactly(gap, s1.buffer, s.row);
    LoadedExactly(s.row);
  }

  lemma OutIs(gap: nat, s: BranchState, policy: Policy)
    requires GoodState(gap, s) && s.buffer.cursor < gap && Following(s.buffer) < HARDENED_KEY_START
    ensures Out(gap, s, Next(policy, Deferred)) == [Following(s.buffer)]
    ensures AfterNext(gap, s.buffer, policy, Deferred).1 == s.buffer.(cursor := s.buffer.cursor + 1)
  {
    NextExactly(gap, s.buffer, policy, Deferred);
  }

  lemma ThreeSteps(gap: nat, s: BranchState, x: Step, y: Step, z: Step)
    requires GoodState(gap, s) && Indexed(x) && Indexed(y) && Indexed(z)
    ensures GoodState(gap, Apply(gap, s, x)) && GoodState(gap, Apply(gap, Apply(gap, s, x), y))
    ensures RunHanded(gap, s, [x, y, z]) ==
            Out(gap, s, x) + Out(gap, Apply(gap, s, x), y) + Out(gap, Apply(gap, Apply(gap, s, x), y), z)
  {
    hide Out, Apply, GoodState, Indexed;
    StepSafe(gap, s, x);
    var s1 := Apply(gap, s, x);
    StepSafe(gap, s1, y);
    var s2 := Apply(gap, s1, y);
    StepSafe(gap, s2, z);
    assert [x, y, z][1..] == [y, z] && [y, z][1..] == [z] && [z][1..] == [];
    assert RunHanded(gap, s2, [z]) == Out(gap, s2, z) + [];
    assert RunHanded(gap, s1, [y, z]) == Out(gap, s1, y) + RunHanded(gap, s2, [z]);
  }
}

/** The next address of an account branch: an in-memory cursor past the last used
    index, the database's last used and last returned indexes, and the addresses
    watched for transactions.  All indexes are 32-bit, and `NONE` plus one is
    zero. */
module AddressBuffers {
  import opened Gaps
  import opened Powers

  datatype Policy = Error | Ignore | Wrap

  /** `cursor` is added to the last used index to get the next child. */
  datatype Buffer = Buffer(lastUsed: nat, cursor: nat)

  /** A branch as the database records it. */
  datatype Row = Row(lastUsed: nat, lastReturned: nat)

  /** How many indexes there are up to and including `i`. */
  function UpTo(i: nat): nat
    requires i < TWO32
  {
    Add32(i, 1)
  }

  predicate BufferOk(b: Buffer) {
    b.lastUsed < TWO32 && UpTo(b.lastUsed) + b.cursor <= HARDENED_KEY_START
  }

  /** The last returned index is never below the last used one. */
  predicate RowOk(r: Row) {
    r.lastUsed < TWO32 && r.lastReturned < TWO32 && UpTo(r.lastUsed) <= UpTo(r.lastReturned) <= HARDENED_KEY_START
  }

  /** The buffer of a branch as the database has it. */
  function LoadedBuffer(r: Row): Buffer
    requires RowOk(r)
  {
    Buffer(r.lastUsed, Sub32(r.lastReturned, r.lastUsed))
  }

  function RoundUp(n: nat, gap: nat): nat
    requires gap > 0
  {
    if n % gap == 0 then n else n - n % gap + gap
  }

  /** A gap limit of addresses past the last used one is watched, and whole
      batches of a gap limit up to the cursor beyond that. */
  function WatchedBelow(gap: nat, b: Buffer): nat
    requires 0 < gap && BufferOk(b)
  {
    UpTo(b.lastUsed) + if b.cursor <= gap then gap else RoundUp(b.cursor, gap)
  }

  ghost predicate Covered(gap: nat, b: Buffer, watched: set<nat>)
    requires 0 < gap
  {
    BufferOk(b) && AllBelow(WatchedBelow(gap, b), watched)
  }

  /** All indexes there are below `n`. */
  ghost predicate AllBelow(n: nat, watched: set<nat>) {
    forall i: nat :: i < n && i < HARDENED_KEY_START ==> i in watched
  }

  function Range(from: nat, to: nat): (r: set<nat>)
    ensures forall i: nat :: (i in r <==> from <= i < to)
    decreases if from < to then to - from else 0
  {
    if from >= to then {} else {from} + Range(from + 1, to)
  }

  lemma RoundUpIs(n: nat, gap: nat)
    requires gap > 0
    ensures n <= RoundUp(n, gap) < n + gap
    ensures n % gap == 0 ==> RoundUp(n, gap) == n && RoundUp(n + 1, gap) == n + gap
    ensures n % gap != 0 ==> RoundUp(n + 1, gap) == RoundUp(n, gap)
  {
    NextRemainder(n, gap);
  }

  lemma NextRemainder(n: nat, gap: nat)
    requires gap > 0
    ensures (n + 1) % gap == if n % gap + 1 == gap then 0 else n % gap + 1
  {
    var q, r := n / gap, n % gap;
    if r + 1 == gap {
      assert n + 1 == (q + 1) * gap;
      FloorIs(n + 1, gap, q + 1);
    } else {
      assert n + 1 == q * gap + (r + 1);
      FloorIs(n + 1, gap, q);
    }
  }

  // ----- the next address -----

  datatype Outcome = Returned(child: nat) | GapLimit | Exhausted | Underivable | NoAccount | NoBranch

  /** The batch of addresses watched before one is returned past the gap limit. */
  function Batch(gap: nat, b: Buffer, policy: Policy): set<nat>
    requires 0 < gap && BufferOk(b)
  {
    var next := UpTo(b.lastUsed) + b.cursor;
    if b.cursor >= gap && policy.Ignore? && b.cursor % gap == 0 && next + gap <= HARDENED_KEY_START
    then Range(next, next + gap) else {}
  }

  /** The wrapping policy starts over behind the last used index. */
  function Rewound(gap: nat, b: Buffer, policy: Policy): Buffer {
    if b.cursor >= gap && policy.Wrap? then b.(cursor := 0) else b
  }

  function NextOutcome(gap: nat, b: Buffer, policy: Policy): Outcome
    requires 0 < gap && BufferOk(b)
  {
    var next := UpTo(b.lastUsed) + Rewound(gap, b, policy).cursor;
    if b.cursor >= gap && policy.Error? then GapLimit
    else if b.cursor >= gap && policy.Ignore? && b.cursor % gap == 0 && next + gap > HARDENED_KEY_START then Underivable
    else if next >= HARDENED_KEY_START then Exhausted
    else Returned(next)
  }

  /** The database update after an address: at once, later or not at all, or
      failing. */
  datatype Persist = Now | Deferred | Failing

  datatype Result = Result(outcome: Outcome) | NotPersisted

  /** The result of asking a buffer for its next child, and the buffer after. */
  function AfterNext(gap: nat, b: Buffer, policy: Policy, persist: Persist): (Result, Buffer)
    requires gap > 0 && BufferOk(b)
  {
    var outcome := NextOutcome(gap, b, policy);
    var rewound := Rewound(gap, b, policy);
    if !outcome.Returned? then (Result(outcome), rewound)
    else if persist.Failing? then (NotPersisted, rewound)
    else (Result(outcome), rewound.(cursor := rewound.cursor + 1))
  }

  /** An address was handed out. */
  predicate HandsOut(r: Result) {
    r.Result? && r.outcome.Returned?
  }

  /** The database row after that. */
  function RowAfter(row: Row, r: Result, persist: Persist): Row
    requires RowOk(row) && (HandsOut(r) ==> r.outcome.child < TWO32)
  {
    if HandsOut(r) && persist.Now? then MarkReturned(row, r.outcome.child) else row
  }

  /** An address handed out is watched, and its branch stays covered.  Unless the
      gap limit is to be ignored, it is within the gap limit of the last used
      address.  This holds whether or not the returned index is recorded. */
  lemma NextIsWatched(gap: nat, b: Buffer, watched: set<nat>, policy: Policy)
    requires 0 < gap && Covered(gap, b, watched)
    ensures var watched' := watched + Batch(gap, b, policy);
            var rewound := Rewound(gap, b, policy);
            && Covered(gap, rewound, watched')
            && match NextOutcome(gap, b, policy)
               case Returned(child) =>
                 && child in watched' && child < HARDENED_KEY_START
                 && Covered(gap, rewound.(cursor := rewound.cursor + 1), watched')
                 && (!policy.Ignore? ==> UpTo(b.lastUsed) <= child < UpTo(b.lastUsed) + gap)
               case _ => true
  {
    RewindCovered(gap, b, watched, policy);
    var rewound := Rewound(gap, b, policy);
    var watched' := watched + Batch(gap, b, policy);
    if NextOutcome(gap, b, policy).Returned? {
      AdvanceBelow(gap, rewound);
      var next := UpTo(b.lastUsed) + rewound.cursor;
      hide RoundUp, WatchedBelow;
      if rewound.cursor >= gap && rewound.cursor % gap == 0 {
        RangesJoin(watched, next, next, next + gap, next + gap);
      }
    }
  }

  lemma RewindCovered(gap: nat, b: Buffer, watched: set<nat>, policy: Policy)
    requires 0 < gap && Covered(gap, b, watched)
    ensures Covered(gap, Rewound(gap, b, policy), watched)
  {
    RoundUpIs(b.cursor, gap);
  }

  /** Advancing the cursor needs more addresses only at a multiple of the gap
      limit. */
  lemma AdvanceBelow(gap: nat, b: Buffer)
    requires 0 < gap && BufferOk(b) && BufferOk(b.(cursor := b.cursor + 1))
    ensures WatchedBelow(gap, b.(cursor := b.cursor + 1)) ==
            if b.cursor >= gap && b.cursor % gap == 0 then UpTo(b.lastUsed) + b.cursor + gap else WatchedBelow(gap, b)
    ensures UpTo(b.lastUsed) + b.cursor <= WatchedBelow(gap, b)
    ensures b.cursor >= gap && b.cursor % gap == 0 ==> WatchedBelow(gap, b) == UpTo(b.lastUsed) + b.cursor
    ensures b.cursor < gap || b.cursor % gap != 0 ==> UpTo(b.lastUsed) + b.cursor < WatchedBelow(gap, b)
  {
    RoundUpIs(b.cursor, gap);
    if b.cursor == gap {
      ModSelf(gap);
    }
    hide RoundUp;
  }

  lemma ModSelf(gap: nat)
    requires gap > 0
    ensures gap % gap == 0
  {
  }

  // ----- the database rows -----

  function Max(a: nat, b: nat): nat {
    if a > b then a else b
  }

  /** Recording use never lowers either index. */
  function MarkUsed(r: Row, index: nat): Row
    requires RowOk(r) && index < TWO32
  {
    if UpTo(index) < UpTo(r.lastUsed) then r
    else Row(index, Sub32(Max(UpTo(index), UpTo(r.lastReturned)), 1))
  }

  /** Recording a returned index may lower the last returned index, but not below
      the last used one. */
  function MarkReturned(r: Row, index: nat): Row
    requires RowOk(r) && index < TWO32
  {
    r.(lastReturned := Sub32(Max(UpTo(r.lastUsed), UpTo(index)), 1))
  }

  lemma MarksKeepRows(r: Row, index: nat)
    requires RowOk(r) && index < HARDENED_KEY_START
    ensures RowOk(MarkUsed(r, index)) && RowOk(MarkReturned(r, index))
    ensures UpTo(MarkUsed(r, index).lastUsed) == Max(UpTo(r.lastUsed), index + 1)
    ensures UpTo(MarkUsed(r, index).lastReturned) == Max(UpTo(r.lastReturned), index + 1)
    ensures UpTo(MarkReturned(r, index).lastReturned) == Max(UpTo(r.lastUsed), index + 1)
  {
  }

  // ----- watching ahead -----

  /** The half open range of addresses to watch once the database has moved on. */
  function Ahead(gap: nat, b: Buffer, r: Row): (nat, nat)
    requires 0 < gap < HARDENED_KEY_START && BufferOk(b) && RowOk(r)
  {
    (Add32(UpTo(b.lastUsed), gap), Add32(UpTo(r.lastReturned), gap))
  }

  function AheadWatched(gap: nat, b: Buffer, r: Row): set<nat>
    requires 0 < gap < HARDENED_KEY_START && BufferOk(b) && RowOk(r)
  {
    var (start, end) := Ahead(gap, b, r);
    Range(start, if end < HARDENED_KEY_START then end else HARDENED_KEY_START)
  }

  /** The buffer takes over the database's indexes if it fell behind. */
  function CaughtUp(gap: nat, b: Buffer, r: Row): Buffer
    requires 0 < gap < HARDENED_KEY_START && BufferOk(b) && RowOk(r)
  {
    var (start, end) := Ahead(gap, b, r);
    if end > start then LoadedBuffer(r) else b
  }

  lemma AheadIsCovered(gap: nat, b: Buffer, r: Row, watched: set<nat>)
    requires 0 < gap < HARDENED_KEY_START && RowOk(r) && Covered(gap, b, watched)
    ensures Covered(gap, CaughtUp(gap, b, r), watched + AheadWatched(gap, b, r))
  {
    AheadBounds(gap, b, r);
    var b' := CaughtUp(gap, b, r);
    if b' != b {
      hide CaughtUp, Ahead, Range, RoundUp, WatchedBelow;
      var start, end := UpTo(b.lastUsed) + gap, UpTo(r.lastReturned) + gap;
      RangesJoin(watched, WatchedBelow(gap, b), start, end, WatchedBelow(gap, b'));
    }
  }

  lemma RangesJoin(watched: set<nat>, below: nat, start: nat, end: nat, below': nat)
    requires AllBelow(below, watched) && start <= below && below' <= end
    ensures AllBelow(below', watched + Range(start, if end < HARDENED_KEY_START then end else HARDENED_KEY_START))
  {
  }

  /** A branch that catches up is watched a gap limit past the last returned
      index. */
  lemma AheadBounds(gap: nat, b: Buffer, r: Row)
    requires 0 < gap < HARDENED_KEY_START && RowOk(r) && BufferOk(b)
    ensures Ahead(gap, b, r) == (UpTo(b.lastUsed) + gap, UpTo(r.lastReturned) + gap)
    ensures BufferOk(CaughtUp(gap, b, r))
    ensures CaughtUp(gap, b, r) != b ==>
              && WatchedBelow(gap, CaughtUp(gap, b, r)) <= UpTo(r.lastReturned) + gap
              && AheadWatched(gap, b, r) ==
                 Range(UpTo(b.lastUsed) + gap,
                       if UpTo(r.lastReturned) + gap < HARDENED_KEY_START then UpTo(r.lastReturned) + gap else HARDENED_KEY_START)
  {
    hide Range;
    if UpTo(r.lastReturned) > UpTo(b.lastUsed) {
      LoadedBelow(gap, r);
    }
  }

  /** A buffer taken from the database needs no more than a gap limit past the
      last returned index. */
  lemma LoadedBelow(gap: nat, r: Row)
    requires 0 < gap < HARDENED_KEY_START && RowOk(r)
    ensures var b := LoadedBuffer(r);
            BufferOk(b) && WatchedBelow(gap, b) <= UpTo(r.lastReturned) + gap
  {
    RoundUpIs(Sub32(r.lastReturned, r.lastUsed), gap);
    assert Sub32(r.lastReturned, r.lastUsed) == UpTo(r.lastReturned) - UpTo(r.lastUsed);
    hide RoundUp;
  }

  /** What is watched on connecting covers the buffer loaded from the database. */
  lemma LoadedIsCovered(gap: nat, r: Row, watched: set<nat>)
    requires 0 < gap < HARDENED_KEY_START && RowOk(r)
    requires AllBelow(LastLoaded(gap, r) + 1, watched)
    ensures Covered(gap, LoadedBuffer(r), watched)
  {
    LoadedBelow(gap, r);
    hide RoundUp, WatchedBelow;
  }

  /** The last index loaded on connecting. */
  function LastLoaded(gap: nat, r: Row): nat
    requires gap < TWO32 && r.lastReturned < TWO32
  {
    var n := Add32(r.lastReturned, gap);
    if n < HARDENED_KEY_START - 1 then n else HARDENED_KEY_START - 1
  }

  /** It is the last of a gap limit of indexes behind the last returned one, as far as
      there are any. */
  lemma LastLoadedExactly(gap: nat, r: Row)
    requires 0 < gap < HARDENED_KEY_START && RowOk(r)
    ensures LastLoaded(gap, r) + 1 == if UpTo(r.lastReturned) + gap < HARDENED_KEY_START then UpTo(r.lastReturned) + gap
                                      else HARDENED_KEY_START
  {
  }

  // ----- runs -----

  datatype BranchState = BranchState(buffer: Buffer, row: Row, watched: set<nat>)

  datatype Step =
    | Next(policy: Policy, persist: Persist)
    | Use(index: nat)
    | Record(index: nat)
    | Watch

  ghost predicate GoodState(gap: nat, s: BranchState) {
    0 < gap < HARDENED_KEY_START && RowOk(s.row) && Covered(gap, s.buffer, s.watched)
  }

  predicate Indexed(step: Step) {
    (step.Use? ==> step.index < HARDENED_KEY_START) && (step.Record? ==> step.index < HARDENED_KEY_START)
  }

  lemma ChildFits(gap: nat, b: Buffer, policy: Policy, persist: Persist)
    requires 0 < gap && BufferOk(b)
    ensures var r := AfterNext(gap, b, policy, persist).0;
            HandsOut(r) ==> r.outcome.child < HARDENED_KEY_START
  {
  }

  ghost function Apply(gap: nat, s: BranchState, step: Step): BranchState
    requires GoodState(gap, s) && Indexed(step)
  {
    match step
    case Next(policy, persist) =>
      ChildFits(gap, s.buffer, policy, persist);
      var (r, next) := AfterNext(gap, s.buffer, policy, persist);
      BranchState(next, RowAfter(s.row, r, persist), s.watched + Batch(gap, s.buffer, policy))
    case Use(index) => s.(row := MarkUsed(s.row, index))
    case Record(index) => s.(row := MarkReturned(s.row, index))
    case Watch =>
      BranchState(CaughtUp(gap, s.buffer, s.row), s.row, s.watched + AheadWatched(gap, s.buffer, s.row))
  }

  /** An address handed out in a step is watched then, and within the gap limit
      unless the caller ignores it. */
  ghost predicate SafeStep(gap: nat, s: BranchState, step: Step)
    requires GoodState(gap, s) && Indexed(step)
  {
    step.Next? ==>
      var r := AfterNext(gap, s.buffer, step.policy, step.persist).0;
      HandsOut(r) ==>
        && r.outcome.child in Apply(gap, s, step).watched
        && (!step.policy.Ignore? ==> UpTo(s.buffer.lastUsed) <= r.outcome.child < UpTo(s.buffer.lastUsed) + gap)
  }

  ghost predicate SafeRun(gap: nat, s: BranchState, steps: seq<Step>)
    decreases |steps|
  {
    && GoodState(gap, s)
    && (steps == [] ||
        (Indexed(steps[0]) ==> SafeStep(gap, s, steps[0]) && SafeRun(gap, Apply(gap, s, steps[0]), steps[1..])))
  }

  lemma StepSafe(gap: nat, s: BranchState, step: Step)
    requires GoodState(gap, s) && Indexed(step)
    ensures SafeStep(gap, s, step) && GoodState(gap, Apply(gap, s, step))
  {
    match step
    case Next(policy, persist) =>
      NextIsWatched(gap, s.buffer, s.watched, policy);
      if NextOutcome(gap, s.buffer, policy).Returned? {
        MarksKeepRows(s.row, NextOutcome(gap, s.buffer, policy).child);
      }
      hide Covered, NextOutcome, Batch, Rewound, RowOk, MarkReturned;
    case Use(index) =>
      MarksKeepRows(s.row, index);
      hide Covered;
    case Record(index) =>
      MarksKeepRows(s.row, index);
      hide Covered;
    case Watch =>
      AheadIsCovered(gap, s.buffer, s.row, s.watched);
      hide Covered;
  }

  /** All runs are safe, from any state in which the branch is covered, such as a
      buffer loaded from the database once its addresses are watched. */
  lemma {:induction false} AllRunsSafe(gap: nat, s: BranchState, steps: seq<Step>)
    requires GoodState(gap, s)
    ensures SafeRun(gap, s, steps)
    decreases |steps|
  {
    if steps == [] || !Indexed(steps[0]) {
    } else {
      StepSafe(gap, s, steps[0]);
      hide SafeStep, GoodState;
      AllRunsSafe(gap, Apply(gap, s, steps[0]), steps[1..]);
    }
  }
}

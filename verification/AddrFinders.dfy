/** wallet/discovery.go: finding the last used address of every branch at once.
    Every branch bisects its segments of indexes in step with the others, because
    each round tests the block filters with one segment of every branch.

    A branch's bounds are 32-bit: the upper bound of a branch without any use
    underflows when its first segment is found unused, while other branches may
    still be searching. */
module AddrFinders {
  import opened Gaps
  import opened Powers

  /** An address of ours: branches are counted over all accounts, external and
      internal ones alternating. */
  datatype Path = Path(branch: nat, index: nat)

  datatype Branch = Branch(lastUsed: nat, lo: nat, hi: nat)

  predicate Active(b: Branch, segments: nat) {
    b.lo <= b.hi < segments
  }

  /** Indexes are split into whole segments of the gap limit. */
  predicate Sized(gap: nat, segments: nat) {
    0 < gap <= HARDENED_KEY_START && segments == HARDENED_KEY_START / gap <= HARDENED_KEY_START
  }

  predicate Fits(b: Branch) {
    b.lo < TWO32 && b.hi < TWO32
  }

  function Mid(b: Branch): (mid: nat)
    requires Fits(b)
    ensures mid < HARDENED_KEY_START
  {
    Add32(b.hi, b.lo) / 2
  }

  /** The segment of each active branch is searched in this round. */
  predicate InSegment(gap: nat, segments: nat, b: Branch, index: nat)
    requires gap > 0 && segments <= TWO32
  {
    Active(b, segments) && index / gap == Mid(b)
  }

  function FoundIn(gap: nat, segments: nat, b: Branch, seen: set<nat>): set<nat>
    requires gap > 0 && segments <= TWO32
  {
    set i | i in seen && InSegment(gap, segments, b, i)
  }

  /** The bounds after a round. */
  function Narrowed(gap: nat, b: Branch): Branch
    requires gap < TWO32 && Fits(b)
  {
    if b.lo <= b.hi then
      var begin := Mul32(Mid(b), gap);
      if begin <= b.lastUsed < Add32(begin, gap) then b.(lo := Add32(Mid(b), 1)) else b.(hi := Sub32(Mid(b), 1))
    else b
  }

  /** `last` is `before`, raised to the greatest of `found`. */
  ghost predicate Raised(before: nat, found: set<nat>, last: nat) {
    && (last == before || (last in found && (before == NONE || last > before)))
    && (forall i :: i in found ==> last != NONE && i <= last)
    && (before != NONE ==> last != NONE)
  }

  // ----- what one round does to one branch -----

  /** What is known of a branch's use: everything used is recorded in the blocks
      searched (`seen`) or is at or below the last used index of the database. */
  ghost predicate Covers(used: set<nat>, seen: set<nat>, last0: nat) {
    && seen <= used
    && (last0 != NONE ==> last0 in used && last0 < HARDENED_KEY_START)
    && (forall i :: i in used ==> i < HARDENED_KEY_START && (i in seen || (last0 != NONE && i <= last0)))
  }

  function FirstSegment(gap: nat, last0: nat): nat
    requires gap > 0
  {
    if last0 == NONE then 0 else last0 / gap
  }

  /** The last used index found so far belongs to the segment below the lower
      bound, and nothing used below that bound is greater. */
  ghost predicate Lower(gap: nat, segments: nat, used: set<nat>, last0: nat, b: Branch)
    requires gap > 0
  {
    && b.lo >= FirstSegment(gap, last0)
    && (b.lastUsed == NONE <==> last0 == NONE && b.lo == 0)
    && (b.lastUsed != NONE ==> b.lastUsed in used)
    && (b.lastUsed != NONE ==>
         if b.lo == FirstSegment(gap, last0) then b.lastUsed == last0 else b.lastUsed / gap == b.lo - 1 < segments)
    && (forall i :: i in used && i / gap < b.lo ==> b.lastUsed != NONE && i <= b.lastUsed)
  }

  /** Under the gap hypothesis, no segment from `top` on is used. */
  ghost predicate Upper(gap: nat, segments: nat, used: set<nat>, top: nat)
    requires gap > 0
  {
    NoGaps(used, gap) ==> forall i :: i in used && i / gap < segments ==> i / gap < top
  }

  /** Branches without any use share the upper bound `e - 1`, which underflows;
      the others have at most `m` segments left.  Once the shared bound has
      underflowed and been halved, `again` holds. */
  ghost predicate Searching(gap: nat, segments: nat, used: set<nat>, last0: nat, b: Branch, left: Left)
    requires gap > 0
  {
    && Lower(gap, segments, used, last0, b)
    && if b.lastUsed == NONE then
         b.hi == Below(left.e) && Upper(gap, segments, used, if left.again then 0 else left.e)
       else
         b.lo <= b.hi + 1 <= segments && b.hi + 1 - b.lo <= left.m && Upper(gap, segments, used, b.hi + 1)
  }

  /** The greatest segment below `e`; it underflows at zero. */
  function Below(e: nat): nat {
    if e == 0 then TWO32 - 1 else e - 1
  }

  datatype Left = Left(e: nat, m: nat, again: bool)

  /** One less than a power of two: halving such a bound leaves as much above the
      middle as below it. */
  ghost predicate AllOnes(n: nat) {
    n == 0 || (n % 2 == 1 && AllOnes(n / 2))
  }

  ghost predicate LeftOk(segments: nat, left: Left) {
    && segments <= HARDENED_KEY_START
    && if !left.again then left.e <= segments && left.e <= left.m <= left.e + 1
       else if segments == HARDENED_KEY_START then left.e < segments && left.m == left.e && AllOnes(left.e)
       else left.e == HARDENED_KEY_START - 1 && left.m == 0 && 2 * segments <= HARDENED_KEY_START
  }

  /** Another round is needed. */
  ghost predicate MayRun(left: Left) {
    if left.e == 0 then left.m == 1 && !left.again else true
  }

  ghost function Next(segments: nat, left: Left): Left {
    if left.e == 0 then
      Left(HARDENED_KEY_START - 1, if segments == HARDENED_KEY_START then HARDENED_KEY_START - 1 else 0, true)
    else
      Left((left.e - 1) / 2, left.m / 2, left.again)
  }

  ghost predicate Halvable(segments: nat, left: Left) {
    LeftOk(segments, left) && MayRun(left) && left.e <= segments
  }

  lemma ActiveRuns(gap: nat, segments: nat, used: set<nat>, last0: nat, b: Branch, left: Left)
    requires gap > 0 && LeftOk(segments, left) && Searching(gap, segments, used, last0, b, left) && Active(b, segments)
    ensures Halvable(segments, left)
  {
  }

  /** The segments left halve, and the bound underflows at most once. */
  lemma NextLeft(gap: nat, segments: nat, left: Left)
    requires Sized(gap, segments) && Halvable(segments, left)
    ensures LeftOk(segments, Next(segments, left))
    ensures var left' := Next(segments, left);
            (left'.again && !left.again) || (left'.again == left.again && left'.e + left'.m < left.e + left.m)
  {
    OnesBelowStart();
    if gap > 1 {
      SegmentsHalve(gap);
    }
  }

  lemma SegmentsHalve(gap: nat)
    requires gap > 1
    ensures 2 * (HARDENED_KEY_START / gap) <= HARDENED_KEY_START
  {
    assert HARDENED_KEY_START / gap * gap <= HARDENED_KEY_START;
    assert HARDENED_KEY_START / gap * 2 <= HARDENED_KEY_START / gap * gap;
  }

  lemma OnesBelowStart()
    ensures AllOnes(HARDENED_KEY_START - 1)
  {
    var n: nat := 7;
    var digits := 1;
    while digits < 8
      invariant AllOnes(n) && digits <= 8
      invariant n + 1 == if digits == 1 then 0x8 else if digits == 2 then 0x80 else if digits == 3 then 0x800
                         else if digits == 4 then 0x8000 else if digits == 5 then 0x8_0000 else if digits == 6 then 0x80_0000
                         else if digits == 7 then 0x800_0000 else HARDENED_KEY_START
    {
      assert AllOnes(4 * n + 3);
      n := 16 * n + 15;
      digits := digits + 1;
    }
  }

  /** The round's outcome keeps what is known of the branch. */
  lemma RoundKeeps(gap: nat, segments: nat, used: set<nat>, seen: set<nat>, last0: nat, b: Branch, last: nat, left: Left)
    requires Sized(gap, segments) && Covers(used, seen, last0) && Halvable(segments, left)
    requires Searching(gap, segments, used, last0, b, left)
    requires Raised(b.lastUsed, FoundIn(gap, segments, b, seen), last)
    ensures Fits(b)
    ensures Searching(gap, segments, used, last0, Narrowed(gap, b.(lastUsed := last)), Next(segments, left))
  {
    BoundsFit(gap, segments, used, last0, b, left);
    if Active(b, segments) {
      MidSegment(gap, segments, b, last);
      NarrowedIs(gap, segments, b, last);
      hide Lower, Upper, Raised, Covers, Narrowed, AllOnes, FoundIn;
      if last / gap == Mid(b) {
        HitLower(gap, segments, used, seen, last0, b, last);
        HitBounds(gap, segments, used, last0, b, last, left);
      } else {
        MissUpper(gap, segments, used, seen, last0, b, last);
        MissBounds(gap, segments, used, last0, b, left);
      }
    } else {
      assert FoundIn(gap, segments, b, seen) == {};
      Idle(gap, segments, used, last0, b, left);
    }
  }

  lemma BoundsFit(gap: nat, segments: nat, used: set<nat>, last0: nat, b: Branch, left: Left)
    requires Sized(gap, segments) && LeftOk(segments, left)
    requires Searching(gap, segments, used, last0, b, left)
    ensures Fits(b)
  {
  }

  lemma NarrowedIs(gap: nat, segments: nat, b: Branch, last: nat)
    requires Sized(gap, segments) && Active(b, segments) && segments < TWO32
    ensures Narrowed(gap, b.(lastUsed := last)) ==
            if last / gap == Mid(b) then Branch(last, Mid(b) + 1, b.hi)
            else Branch(last, b.lo, Sub32(Mid(b), 1))
  {
    MidSegment(gap, segments, b, last);
  }

  lemma HitBounds(gap: nat, segments: nat, used: set<nat>, last0: nat, b: Branch, last: nat, left: Left)
    requires Sized(gap, segments) && Halvable(segments, left) && Active(b, segments)
    requires Searching(gap, segments, used, last0, b, left)
    requires Mid(b) == (b.hi + b.lo) / 2 && last != NONE
    requires Lower(gap, segments, used, last0, Branch(last, Mid(b) + 1, b.hi))
    ensures Searching(gap, segments, used, last0, Branch(last, Mid(b) + 1, b.hi), Next(segments, left))
  {
    if b.lastUsed == NONE {
      LowerStarts(gap, segments, used, last0, b);
    }
    hide Lower, AllOnes;
    assert b.hi + 1 - b.lo <= left.m;
    HalfLeft(b.lo, b.hi, Mid(b), left.m);
    NextHalves(segments, left, b);
    hide Next, MayRun;
    assert Upper(gap, segments, used, b.hi + 1) by {
      hide Upper;
      if b.lastUsed == NONE && left.again {
        UpperWeaker(gap, segments, used, 0, b.hi + 1);
      }
    }
  }

  lemma UpperWeaker(gap: nat, segments: nat, used: set<nat>, top: nat, top': nat)
    requires gap > 0 && Upper(gap, segments, used, top) && top <= top'
    ensures Upper(gap, segments, used, top')
  {
  }

  lemma LowerStarts(gap: nat, segments: nat, used: set<nat>, last0: nat, b: Branch)
    requires gap > 0 && Lower(gap, segments, used, last0, b) && b.lastUsed == NONE
    ensures b.lo == 0
  {
  }

  lemma LowerNarrower(gap: nat, segments: nat, used: set<nat>, last0: nat, b: Branch, hi: nat)
    requires gap > 0 && Lower(gap, segments, used, last0, b)
    ensures Lower(gap, segments, used, last0, b.(hi := hi))
  {
  }

  lemma MissBounds(gap: nat, segments: nat, used: set<nat>, last0: nat, b: Branch, left: Left)
    requires Sized(gap, segments) && Halvable(segments, left) && Active(b, segments)
    requires Searching(gap, segments, used, last0, b, left)
    requires Mid(b) == (b.hi + b.lo) / 2 && (b.lastUsed != NONE ==> Mid(b) > 0)
    requires Upper(gap, segments, used, Mid(b))
    ensures Searching(gap, segments, used, last0, b.(hi := Sub32(Mid(b), 1)), Next(segments, left))
  {
    LowerNarrower(gap, segments, used, last0, b, Sub32(Mid(b), 1));
    if b.lastUsed == NONE {
      LowerStarts(gap, segments, used, last0, b);
      hide Lower, AllOnes, Upper;
      SharedHalves(segments, b, left);
    } else {
      hide Lower, AllOnes, Upper;
      HalfLeft(b.lo, b.hi, Mid(b), left.m);
      NextHalves(segments, left, b);
      hide Next, LeftOk, MayRun;
    }
  }

  lemma SharedHalves(segments: nat, b: Branch, left: Left)
    requires Halvable(segments, left) && Active(b, segments) && b.lo == 0 && b.hi == Below(left.e)
    requires Mid(b) == (b.hi + b.lo) / 2
    ensures Mid(b) == Next(segments, left).e && left.again == Next(segments, left).again
  {
    hide AllOnes;
  }

  /** A branch with two segments or more, or one while the shared bound has not
      underflowed, has half of them left. */
  lemma NextHalves(segments: nat, left: Left, b: Branch)
    requires Halvable(segments, left) && Active(b, segments) && b.hi + 1 - b.lo <= left.m
    ensures left.m / 2 <= Next(segments, left).m
  {
    hide AllOnes;
  }

  lemma HalfLeft(lo: nat, hi: nat, mid: nat, m: nat)
    requires mid == (hi + lo) / 2 && hi + 1 - lo <= m && lo <= hi
    ensures mid - lo <= m / 2 && hi - mid <= m / 2
  {
  }

  /** A branch that is not searched in a round; its shared bound may underflow
      further. */
  lemma Idle(gap: nat, segments: nat, used: set<nat>, last0: nat, b: Branch, left: Left)
    requires Sized(gap, segments) && Halvable(segments, left)
    requires Fits(b)
    requires Searching(gap, segments, used, last0, b, left) && !Active(b, segments)
    ensures Searching(gap, segments, used, last0, Narrowed(gap, b), Next(segments, left))
  {
    hide AllOnes, Upper;
    if b.lastUsed == NONE {
      LowerStarts(gap, segments, used, last0, b);
      hide Lower;
      assert left.e == 0 && b.hi == TWO32 - 1;
      assert Mid(b) == HARDENED_KEY_START - 1;
      LowerNarrower(gap, segments, used, last0, b, HARDENED_KEY_START - 2);
    }
  }

  /** Within the segments searched, nothing wraps around. */
  lemma MidSegment(gap: nat, segments: nat, b: Branch, last: nat)
    requires Sized(gap, segments) && Active(b, segments)
    ensures Mid(b) == (b.hi + b.lo) / 2 && b.lo <= Mid(b) <= b.hi
    ensures Mul32(Mid(b), gap) == Mid(b) * gap && Add32(Mul32(Mid(b), gap), gap) == Mid(b) * gap + gap
    ensures Mid(b) * gap + gap <= HARDENED_KEY_START && segments <= HARDENED_KEY_START
    ensures Mid(b) * gap <= last < Mid(b) * gap + gap <==> last / gap == Mid(b)
    ensures last == NONE ==> last / gap != Mid(b)
  {
    MidBetween(segments, b);
    SegmentFits(gap, segments, Mid(b));
    SegmentWraps(gap, Mid(b), last);
  }

  lemma SegmentWraps(gap: nat, s: nat, last: nat)
    requires 0 < gap && s * gap + gap <= HARDENED_KEY_START
    ensures Mul32(s, gap) == s * gap && Add32(Mul32(s, gap), gap) == s * gap + gap
    ensures s * gap <= last < s * gap + gap <==> last / gap == s
    ensures last == NONE ==> last / gap != s
  {
    var begin := s * gap;
    SegmentBounds(last, gap, s);
  }

  lemma MidBetween(segments: nat, b: Branch)
    requires Active(b, segments) && segments <= HARDENED_KEY_START
    ensures Mid(b) == (b.hi + b.lo) / 2 && b.lo <= Mid(b) <= b.hi
  {
  }

  lemma SegmentFits(gap: nat, segments: nat, s: nat)
    requires Sized(gap, segments) && s < segments
    ensures s * gap + gap <= HARDENED_KEY_START && segments <= HARDENED_KEY_START
  {
    SegmentBounds(HARDENED_KEY_START, gap, segments);
    MulLe(s + 1, segments, gap);
  }

  lemma HitLower(gap: nat, segments: nat, used: set<nat>, seen: set<nat>, last0: nat, b: Branch, last: nat)
    requires Sized(gap, segments) && Covers(used, seen, last0)
    requires Active(b, segments) && Lower(gap, segments, used, last0, b)
    requires Raised(b.lastUsed, FoundIn(gap, segments, b, seen), last)
    requires last != NONE && last / gap == Mid(b)
    ensures Lower(gap, segments, used, last0, Branch(last, Mid(b) + 1, b.hi))
  {
    MidSegment(gap, segments, b, last);
    forall i | i in used && i / gap < Mid(b) + 1
      ensures i <= last
    {
      SegmentBounds(i, gap, Mid(b));
      if i / gap == Mid(b) && i in seen {
        assert i in FoundIn(gap, segments, b, seen);
      } else if i / gap == Mid(b) {
        assert last0 == b.lastUsed || last0 / gap < b.lo;
      }
    }
  }

  lemma MissUpper(gap: nat, segments: nat, used: set<nat>, seen: set<nat>, last0: nat, b: Branch, last: nat)
    requires Sized(gap, segments) && Covers(used, seen, last0)
    requires Active(b, segments) && Lower(gap, segments, used, last0, b)
    requires Raised(b.lastUsed, FoundIn(gap, segments, b, seen), last)
    requires last / gap != Mid(b)
    ensures last == b.lastUsed && (last != NONE ==> Mid(b) > 0)
    ensures Upper(gap, segments, used, Mid(b))
  {
    MissSame(gap, segments, used, seen, last0, b, last);
    hide Lower, Covers, Raised, FoundIn;
    if NoGaps(used, gap) {
      forall i | i in used && i / gap < segments
        ensures i / gap < Mid(b)
      {
        if i / gap >= Mid(b) {
          hide NoGaps;
          var u := SegmentUsed(used, gap, Mid(b), i);
          NotMissed(gap, segments, used, seen, last0, b, u);
        }
      }
    }
  }

  lemma MissSame(gap: nat, segments: nat, used: set<nat>, seen: set<nat>, last0: nat, b: Branch, last: nat)
    requires Sized(gap, segments)
    requires Active(b, segments) && Lower(gap, segments, used, last0, b)
    requires Raised(b.lastUsed, FoundIn(gap, segments, b, seen), last)
    requires last / gap != Mid(b)
    ensures last == b.lastUsed && (last != NONE ==> Mid(b) > 0) && b.lo <= Mid(b)
    ensures FoundIn(gap, segments, b, seen) == {}
    ensures !(b.lastUsed == last0 != NONE && last0 / gap == Mid(b))
  {
    MidSegment(gap, segments, b, last);
    forall i | i in FoundIn(gap, segments, b, seen)
      ensures false
    {
      SegmentBounds(i, gap, Mid(b));
      FoundAbove(gap, segments, used, last0, b, last, i);
    }
  }

  lemma FoundAbove(gap: nat, segments: nat, used: set<nat>, last0: nat, b: Branch, last: nat, i: nat)
    requires Sized(gap, segments) && Active(b, segments) && Lower(gap, segments, used, last0, b) && b.lo <= Mid(b)
    requires i / gap == Mid(b) && last == b.lastUsed != NONE && i <= last
    ensures last / gap == Mid(b)
  {
    DivMono(i, last, gap);
  }

  /** A used index in the segment searched is found, or is the known last one. */
  lemma NotMissed(gap: nat, segments: nat, used: set<nat>, seen: set<nat>, last0: nat, b: Branch, u: nat)
    requires Sized(gap, segments) && Covers(used, seen, last0) && Active(b, segments) && b.lo <= Mid(b)
    requires Lower(gap, segments, used, last0, b)
    requires u in used && u / gap == Mid(b)
    ensures u in FoundIn(gap, segments, b, seen) || (b.lastUsed == last0 != NONE && last0 / gap == Mid(b))
  {
    if u !in seen {
      DivMono(u, last0, gap);
    }
  }

  lemma DivMono(i: nat, j: nat, gap: nat)
    requires gap > 0 && i <= j
    ensures i / gap <= j / gap
  {
    SegmentBounds(j, gap, i / gap);
    SegmentBounds(i, gap, i / gap);
  }

  /** The used indexes a search can find: those in whole segments, and the one
      known before. */
  ghost function Reachable(used: set<nat>, limit: nat, last0: nat): set<nat> {
    set i | i in used && (i < limit || i == last0)
  }

  /** When no segment is left, the greatest index that can be found has been. */
  lemma FinishedExact(gap: nat, segments: nat, used: set<nat>, seen: set<nat>, last0: nat, b: Branch, left: Left)
    requires Sized(gap, segments) && Covers(used, seen, last0)
    requires LeftOk(segments, left) && Searching(gap, segments, used, last0, b, left) && !Active(b, segments)
    requires NoGaps(used, gap)
    ensures IsLast(Reachable(used, segments * gap, last0), b.lastUsed)
  {
    var reachable := Reachable(used, segments * gap, last0);
    forall i | i in reachable
      ensures b.lastUsed != NONE && i <= b.lastUsed
    {
      SegmentBounds(i, gap, segments);
      if b.lastUsed == NONE {
        UnusedBelow(gap, segments, used, last0, b, left, i);
      } else {
        UsedBelow(gap, segments, used, last0, b, left, i);
      }
    }
    if b.lastUsed != NONE {
      SegmentBounds(b.lastUsed, gap, segments);
      assert b.lastUsed in reachable;
    }
  }

  lemma UnusedBelow(gap: nat, segments: nat, used: set<nat>, last0: nat, b: Branch, left: Left, i: nat)
    requires Sized(gap, segments) && LeftOk(segments, left) && Searching(gap, segments, used, last0, b, left)
    requires !Active(b, segments) && NoGaps(used, gap) && b.lastUsed == NONE
    ensures !(i in used && i / gap < segments)
  {
  }

  lemma UsedBelow(gap: nat, segments: nat, used: set<nat>, last0: nat, b: Branch, left: Left, i: nat)
    requires Sized(gap, segments) && LeftOk(segments, left) && Searching(gap, segments, used, last0, b, left)
    requires !Active(b, segments) && NoGaps(used, gap) && b.lastUsed != NONE
    requires NONE !in used && i in used && (i / gap < segments || i == last0)
    ensures i <= b.lastUsed
  {
  }

  // ----- a branch bisected on its own -----

  ghost function Greatest(s: set<nat>): (m: nat)
    requires s != {}
    ensures m in s && forall i :: i in s ==> i <= m
  {
    var i :| i in s;
    if s == {i} then i
    else
      assert (s - {i}) + {i} == s;
      var m := Greatest(s - {i});
      if i > m then i else m
  }

  ghost function RaisedTo(before: nat, found: set<nat>): nat {
    if found == {} || (before != NONE && Greatest(found) <= before) then before else Greatest(found)
  }

  lemma RaisedIs(before: nat, found: set<nat>, last: nat)
    requires NONE !in found
    ensures Raised(before, found, last) <==> last == RaisedTo(before, found)
  {
  }

  /** The last used index when a branch is bisected alone, with `seen` shown by the
      blocks. */
  ghost function Bisect(gap: nat, segments: nat, seen: set<nat>, b: Branch): nat
    requires Sized(gap, segments) && Fits(b)
    decreases if Active(b, segments) then b.hi + 1 - b.lo else 0
  {
    if !Active(b, segments) then b.lastUsed
    else
      var last := RaisedTo(b.lastUsed, FoundIn(gap, segments, b, seen));
      MidSegment(gap, segments, b, last);
      Bisect(gap, segments, seen, Narrowed(gap, b.(lastUsed := last)))
  }

  /** Where the search of a branch starts. */
  function Start(gap: nat, segments: nat, last0: nat): Branch
    requires gap > 0
  {
    Branch(last0, FirstSegment(gap, last0), Below(segments))
  }

  /** The search of one branch alone, from its start to its end. */
  ghost function Bisected(gap: nat, segments: nat, seen: set<nat>, last0: nat): nat
    requires Sized(gap, segments) && last0 < TWO32
  {
    StartFits(gap, segments, last0);
    Bisect(gap, segments, seen, Start(gap, segments, last0))
  }

  lemma StartFits(gap: nat, segments: nat, last0: nat)
    requires Sized(gap, segments) && last0 < TWO32
    ensures Fits(Start(gap, segments, last0))
  {
    SegmentBounds(last0, gap, TWO32);
    MulLe(1, gap, TWO32);
  }

  /** A round of the common search brings a branch one step further on its own, or
      not at all; a bound that underflowed and was halved finds nothing new. */
  lemma RoundBisects(gap: nat, segments: nat, used: set<nat>, seen: set<nat>, last0: nat, b: Branch, last: nat, left: Left)
    requires Sized(gap, segments) && Halvable(segments, left) && Fits(b) && Fits(Start(gap, segments, last0))
    requires Searching(gap, segments, used, last0, b, left) && NONE !in seen
    requires Raised(b.lastUsed, FoundIn(gap, segments, b, seen), last)
    requires Bisect(gap, segments, seen, b) == Bisect(gap, segments, seen, Start(gap, segments, last0))
    ensures Fits(Narrowed(gap, b.(lastUsed := last)))
    ensures Bisect(gap, segments, seen, Narrowed(gap, b.(lastUsed := last))) ==
            Bisect(gap, segments, seen, Start(gap, segments, last0))
  {
    if Active(b, segments) {
      hide Searching, Halvable;
      MidSegment(gap, segments, b, NONE);
      RaisedIs(b.lastUsed, FoundIn(gap, segments, b, seen), last);
    } else {
      assert FoundIn(gap, segments, b, seen) == {} && last == b.lastUsed;
      IdleBisects(gap, segments, used, seen, last0, b, left);
    }
  }

  lemma IdleBisects(gap: nat, segments: nat, used: set<nat>, seen: set<nat>, last0: nat, b: Branch, left: Left)
    requires Sized(gap, segments) && Halvable(segments, left) && Fits(b) && Fits(Start(gap, segments, last0))
    requires Searching(gap, segments, used, last0, b, left) && !Active(b, segments) && NONE !in seen
    requires Bisect(gap, segments, seen, Start(gap, segments, last0)) == b.lastUsed
    ensures Fits(Narrowed(gap, b)) && Bisect(gap, segments, seen, Narrowed(gap, b)) == b.lastUsed
  {
    hide AllOnes, Upper, Bisect, RaisedTo;
    if b.lastUsed != NONE {
      assert Narrowed(gap, b) == b;
      NoMore(gap, segments, seen, b);
    } else {
      LowerStarts(gap, segments, used, last0, b);
      assert last0 == NONE && left.e == 0 && b.hi == TWO32 - 1;
      assert Narrowed(gap, b) == Branch(NONE, 0, HARDENED_KEY_START - 2);
      hide Lower, LeftOk, MayRun, Narrowed;
      if gap == 1 {
        AgainNothing(seen);
      } else {
        SegmentsHalve(gap);
        NoMore(gap, segments, seen, Branch(NONE, 0, HARDENED_KEY_START - 2));
      }
    }
  }

  lemma NoMore(gap: nat, segments: nat, seen: set<nat>, b: Branch)
    requires Sized(gap, segments) && Fits(b) && !Active(b, segments)
    ensures Bisect(gap, segments, seen, b) == b.lastUsed
  {
  }

  /** What is found is the index known before, or shown by the blocks. */
  lemma {:induction false} BisectSeen(gap: nat, segments: nat, seen: set<nat>, b: Branch)
    requires Sized(gap, segments) && Fits(b) && NONE !in seen
    ensures var last := Bisect(gap, segments, seen, b);
            (last == b.lastUsed || last in seen) && (b.lastUsed != NONE ==> last != NONE)
    decreases if Active(b, segments) then b.hi + 1 - b.lo else 0
  {
    if Active(b, segments) {
      var last := RaisedTo(b.lastUsed, FoundIn(gap, segments, b, seen));
      MidSegment(gap, segments, b, last);
      BisectSeen(gap, segments, seen, Narrowed(gap, b.(lastUsed := last)));
    }
  }

  /** A round in which an unused branch stays so. */
  lemma BisectMiss(gap: nat, segments: nat, seen: set<nat>, b: Branch)
    requires Sized(gap, segments) && Fits(b) && Active(b, segments) && b.lastUsed == NONE
    requires forall i :: i in seen ==> i / gap != Mid(b)
    ensures Fits(b.(hi := Sub32(Mid(b), 1)))
    ensures Bisect(gap, segments, seen, b) == Bisect(gap, segments, seen, b.(hi := Sub32(Mid(b), 1)))
  {
    assert FoundIn(gap, segments, b, seen) == {};
    NarrowedIs(gap, segments, b, NONE);
    MidSegment(gap, segments, b, NONE);
  }

  /** With a gap limit of one, halving the underflowed bound repeats the search, which
      finds nothing once more. */
  lemma AgainNothing(seen: set<nat>)
    requires Bisect(1, HARDENED_KEY_START, seen, Start(1, HARDENED_KEY_START, NONE)) == NONE && NONE !in seen
    ensures Bisect(1, HARDENED_KEY_START, seen, Branch(NONE, 0, HARDENED_KEY_START - 2)) == NONE
  {
    var b, again := Branch(NONE, 0, HARDENED_KEY_START - 1), Branch(NONE, 0, HARDENED_KEY_START - 2);
    assert Mid(b) == Mid(again) == HARDENED_KEY_START / 2 - 1;
    if i :| i in seen && i / 1 == Mid(b) {
      assert i in FoundIn(1, HARDENED_KEY_START, b, seen);
      var last := RaisedTo(NONE, FoundIn(1, HARDENED_KEY_START, b, seen));
      BisectSeen(1, HARDENED_KEY_START, seen, Narrowed(1, b.(lastUsed := last)));
    } else {
      BisectMiss(1, HARDENED_KEY_START, seen, b);
      BisectMiss(1, HARDENED_KEY_START, seen, again);
    }
  }

  // ----- when the gap hypothesis fails -----

  /** A segment near the start that a search of `n` segments without finds never looks
      at. */
  function Unprobed(n: nat): (s: nat)
    requires n >= 2
    ensures 1 <= s <= 2 && s < n
  {
    if n == 2 then 1
    else if n <= 4 then 2
    else if n <= 6 then 1
    else Unprobed((n - 1) / 2)
  }

  lemma {:induction false} NeverLooked(gap: nat, segments: nat, seen: set<nat>, n: nat)
    requires Sized(gap, segments) && 2 <= n <= segments
    requires forall i :: i in seen ==> i / gap == Unprobed(n)
    ensures Bisect(gap, segments, seen, Branch(NONE, 0, n - 1)) == NONE
  {
    hide Bisect;
    var b := Branch(NONE, 0, n - 1);
    var mid := (n - 1) / 2;
    BisectMiss(gap, segments, seen, b);
    if n == 2 {
      NoMore(gap, segments, seen, b.(hi := Sub32(0, 1)));
    } else if n <= 4 {
      BisectMiss(gap, segments, seen, b.(hi := 0));
      NoMore(gap, segments, seen, b.(hi := Sub32(0, 1)));
    } else {
      NeverLooked(gap, segments, seen, mid);
    }
  }
}

/** wallet/discovery.go: the search loops over address branches.  Blocks whose filters
    match are fetched once, and the scripts they commit to are kept. */
module Discoveries {
  import opened Gaps
  import opened AddrFinders
  import opened Payments
  import T = TxScans
  import C = Committed
  import Powers

  function HitsOf(hits: set<Path>, branch: nat): set<nat> {
    set p | p in hits && p.branch == branch :: p.index
  }

  lemma RaisedOnce(before: nat, found: set<nat>, last: nat, i: nat)
    requires Raised(before, found, last) && i != NONE
    ensures Raised(before, found + {i}, if last == NONE || i > last then i else last)
  {
  }

  /** A search found the last used index there is in whole segments, or already
      known. */
  ghost predicate Exact(gap: nat, segments: nat, used: set<nat>, last0: nat, found: nat) {
    NoGaps(used, gap) ==> IsLast(Reachable(used, segments * gap, last0), found)
  }

  /** So the last used index is found if and only if it is in a whole segment or
      already known. */
  lemma ExactUnlessPartial(gap: nat, segments: nat, used: set<nat>, last0: nat, found: nat, last: nat)
    requires Exact(gap, segments, used, last0, found) && NoGaps(used, gap) && IsLast(used, last)
    requires NONE !in used && (last0 == NONE || last0 in used)
    ensures found == last <==> last == NONE || last == last0 || last < segments * gap
  {
    var reachable := Reachable(used, segments * gap, last0);
    if used != {} && (last == last0 || last < segments * gap) {
      assert last in reachable;
    }
  }

  /** Indexes are missed for every gap limit that does not divide the number of
      indexes: if all are used, the partial segment at the end is not found. */
  lemma PartialSegmentMissed(gap: nat, used: set<nat>, found: nat)
    requires 0 < gap <= HARDENED_KEY_START && used == AllIndexes()
    requires Exact(gap, HARDENED_KEY_START / gap, used, NONE, found)
    ensures NoGaps(used, gap) && IsLast(used, HARDENED_KEY_START - 1)
    ensures found == HARDENED_KEY_START / gap * gap - 1
    ensures found == HARDENED_KEY_START - 1 <==> HARDENED_KEY_START % gap == 0
  {
    var limit := HARDENED_KEY_START / gap * gap;
    SegmentBounds(HARDENED_KEY_START, gap, HARDENED_KEY_START / gap);
    SegmentBounds(HARDENED_KEY_START, gap, 0);
    assert HARDENED_KEY_START == limit + HARDENED_KEY_START % gap;
    Powers.MulLe(1, HARDENED_KEY_START / gap, gap);
    forall from: nat, i: nat {:trigger UsedWithin(used, from, gap), i in used} | i in used && from + gap <= i
      ensures UsedWithin(used, from, gap)
    {
      assert from in used;
    }
    assert limit - 1 in Reachable(used, limit, NONE);
  }

  ghost function AllIndexes(): set<nat> {
    set i: nat | i < HARDENED_KEY_START && IsIndex(i)
  }

  predicate IsIndex(i: nat) {
    i < HARDENED_KEY_START
  }

  /** The server knows of all uses, the blocks show some of them.  A search of the
      blocks that starts from a known index agrees with one that asks the server from
      none exactly if that index is in a whole segment, and the blocks show, or the
      wallet knew, what the server's search finds. */
  lemma SearchesAgree(gap: nat, segments: nat, used: set<nat>, known: set<nat>, last0: nat, found: nat, single: nat)
    requires NoGaps(used, gap) && NoGaps(known, gap) && used <= known
    requires NONE !in known && (last0 == NONE || last0 in used)
    requires Exact(gap, segments, used, last0, found) && Exact(gap, segments, known, NONE, single)
    ensures found == single <==> (last0 == NONE || last0 < segments * gap) && (single == NONE || single in used)
  {
    var limit := segments * gap;
    var shown, all := Reachable(used, limit, last0), Reachable(known, limit, NONE);
    assert last0 != NONE ==> last0 in shown;
    assert single in all || single == NONE;
    if (last0 == NONE || last0 < limit) && (single == NONE || single in used) {
      assert shown <= all;
      assert single != NONE ==> single in shown;
    }
  }

  /** What the search of the blocks below the tip says about all blocks, the tip
      included: with no gap in what those show, the last used index is found exactly
      if it shows there or was known, in a whole segment or known before. */
  ghost predicate FoundOfAll(gap: nat, segments: nat, used: set<nat>, all: set<nat>, last0: nat, found: nat) {
    NoGaps(used, gap) && NONE !in all ==>
      forall last: nat :: IsLast(all, last) ==>
        (found == last <==> last == NONE || (last in used && (last == last0 || last < segments * gap)))
  }

  lemma ExactOfAll(gap: nat, segments: nat, used: set<nat>, all: set<nat>, last0: nat, found: nat)
    requires Exact(gap, segments, used, last0, found) && used <= all
    ensures FoundOfAll(gap, segments, used, all, last0, found)
  {
    var reachable := Reachable(used, segments * gap, last0);
    if NoGaps(used, gap) && NONE !in all {
      forall last: nat | IsLast(all, last)
        ensures found == last <==> last == NONE || (last in used && (last == last0 || last < segments * gap))
      {
        if last in used && (last == last0 || last < segments * gap) {
          assert last in reachable;
        }
      }
    }
  }

  /** An address that no block below the tip commits to is not found, be it paid in
      the tip alone, or by the submission of a ticket. */
  lemma UncommittedMissed(scriptOf: Scripts, gap: nat, segments: nat, blocks: seq<T.Block>, branch: nat, index: nat, last0: nat)
    requires Sized(gap, segments) && |blocks| > 0 && last0 < TWO32
    requires index in Paid(scriptOf, blocks, branch) && index != last0
    requires index !in Seen(scriptOf, blocks[..|blocks| - 1], branch)
    ensures Bisected(gap, segments, Seen(scriptOf, blocks[..|blocks| - 1], branch), last0) != index
  {
    StartFits(gap, segments, last0);
    BisectSeen(gap, segments, Seen(scriptOf, blocks[..|blocks| - 1], branch), Start(gap, segments, last0));
  }

  /** The last used address is not found if it is paid in the tip alone. */
  lemma TipMissed(scriptOf: Scripts, gap: nat, segments: nat, below: seq<T.Block>, tip: T.Block, branch: nat, index: nat)
    requires Sized(gap, segments) && index < HARDENED_KEY_START
    requires Pays(scriptOf, tip, Path(branch, index)) && index !in Seen(scriptOf, below, branch)
    requires forall i :: i in Paid(scriptOf, below + [tip], branch) ==> i <= index
    ensures IsLast(Paid(scriptOf, below + [tip], branch), index)
    ensures Bisected(gap, segments, Seen(scriptOf, below, branch), NONE) != index
  {
    var blocks := below + [tip];
    assert blocks[|below|] == tip && blocks[..|blocks| - 1] == below;
    assert PaidBy(scriptOf, blocks, Path(branch, index));
    UncommittedMissed(scriptOf, gap, segments, blocks, branch, index, NONE);
  }

  /** Nor if it is paid by a ticket's submission output alone: it is used, the block
      is below the tip, and yet the search misses it. */
  lemma VotingAddressMissed(scriptOf: Scripts, gap: nat, segments: nat, below: seq<T.Block>, tip: T.Block, p: Path, i: nat, k: nat)
    requires Sized(gap, segments) && p.index < HARDENED_KEY_START
    requires i < |below| && k < |below[i].stake| && below[i].stake[k].kind == T.TicketPurchase
    requires |below[i].stake[k].outputs| > 0 && T.Address(scriptOf(p)) in below[i].stake[k].outputs[0].addrs
    requires forall b :: b in below ==> OnlySubmitted(scriptOf, b, p)
    requires forall j :: j in Paid(scriptOf, below + [tip], p.branch) ==> j <= p.index
    ensures IsLast(Paid(scriptOf, below + [tip], p.branch), p.index)
    ensures Bisected(gap, segments, Seen(scriptOf, below, p.branch), NONE) != p.index
  {
    var blocks := below + [tip];
    var t := T.Items(below[i])[k];
    assert blocks[..|blocks| - 1] == below && blocks[i] == below[i];
    assert t == T.Item(below[i].stake[k], k, T.STAKE) && t.PaysAt({T.Address(scriptOf(p))}, 0);
    assert Pays(scriptOf, blocks[i], p);
    assert PaidBy(scriptOf, blocks, p) && Path(p.branch, p.index) == p;
    forall j | 0 <= j < |below|
      ensures !CommitsTo(scriptOf, below[j], p)
    {
      SubmittedMeans(scriptOf, below[j], p);
    }
    UncommittedMissed(scriptOf, gap, segments, blocks, p.branch, p.index, NONE);
  }

  /** Submissions can also hide a use that the filters do commit to.  For every gap
      limit with two whole segments: tickets for the first addresses, and a regular
      payment to the next one.  No gap lies below it, but the committed indexes leave
      one, and the search never looks at its segment. */
  lemma TicketsHideUse(scriptOf: Scripts, gap: nat, segments: nat, branch: nat) returns (n: nat)
    requires Distinct(scriptOf) && Sized(gap, segments) && segments >= 2
    ensures n <= 2 * gap && n < segments * gap
    ensures var below := [TicketBlock(scriptOf, branch, n)];
            && NoGaps(Paid(scriptOf, below, branch), gap) && IsLast(Paid(scriptOf, below, branch), n)
            && n in Seen(scriptOf, below, branch)
            && Bisected(gap, segments, Seen(scriptOf, below, branch), NONE) == NONE
  {
    n := Unprobed(segments) * gap;
    UnprobedFits(gap, segments);
    TicketsUncommitted(scriptOf, branch, n);
    var below := [TicketBlock(scriptOf, branch, n)];
    hide Paid, Seen, TicketBlock, Distinct, Bisect, Unprobed;
    AllUpTo(Paid(scriptOf, below, branch), gap, n);
    NeverLooked(gap, segments, Seen(scriptOf, below, branch), segments);
  }

  lemma UnprobedFits(gap: nat, segments: nat)
    requires Sized(gap, segments) && segments >= 2
    ensures var s := Unprobed(segments);
            s * gap <= 2 * gap && s * gap < segments * gap && s * gap / gap == s && s * gap < HARDENED_KEY_START
    ensures 0 < segments && Start(gap, segments, NONE) == Branch(NONE, 0, segments - 1)
  {
    var s := Unprobed(segments);
    SegmentBounds(s * gap, gap, s);
    SegmentFits(gap, segments, s);
    Powers.MulLe(s + 1, segments, gap);
    Powers.MulLe(s, 2, gap);
  }

  lemma AllUpTo(used: set<nat>, gap: nat, n: nat)
    requires gap > 0 && forall i: nat :: i in used <==> i <= n
    ensures NoGaps(used, gap) && IsLast(used, n)
  {
    forall from: nat, i {:trigger UsedWithin(used, from, gap), i in used} | i in used && from + gap <= i
      ensures UsedWithin(used, from, gap)
    {
      assert from in used;
    }
    assert n in used;
  }

  ghost function InSegmentOf(used: set<nat>, gap: nat, segment: nat): set<nat>
    requires gap > 0
  {
    set i | i in used && i / gap == segment
  }

  /** Whether the server has seen address `index` of a branch. */
  type Exists = nat -> bool

  ghost predicate Reports(known: Exists, used: set<nat>) {
    forall i: nat :: i in used <==> i < HARDENED_KEY_START && known(i)
  }

  /** One branch, bisected with the help of a server that knows which addresses
      exist. */
  method FindLastUsedAddress(gap: nat, known: Exists, ghost used: set<nat>) returns (lastUsed: nat)
    requires 0 < gap <= HARDENED_KEY_START && Reports(known, used)
    ensures Exact(gap, HARDENED_KEY_START / gap, used, NONE, lastUsed)
  {
    lastUsed := NONE;
    SizedFrom(gap);
    var segments := HARDENED_KEY_START / gap;
    var lo: nat, hi: nat := 0, segments - 1;
    while lo <= hi
      invariant lo <= hi + 1 <= segments
      invariant Lower(gap, segments, used, NONE, Branch(lastUsed, lo, hi))
      invariant Upper(gap, segments, used, hi + 1)
      decreases hi + 1 - lo
    {
      ghost var b := Branch(lastUsed, lo, hi);
      MidBetween(segments, b);
      var mid := Add32(hi, lo) / 2;
      var found := LastInSegment(gap, segments, mid, known, used);
      hide Lower, Upper, Reports;
      SegmentOutcome(gap, segments, used, b, known, found);
      if found != NONE {
        lastUsed := found;
        lo := mid + 1;
      } else {
        if mid == 0 {
          NothingUsed(gap, segments, used, b);
          return;
        }
        LowerNarrower(gap, segments, used, NONE, b, mid - 1);
        hi := mid - 1;
      }
    }
    SearchedAll(gap, segments, used, lastUsed, lo, hi);
  }

  lemma NothingUsed(gap: nat, segments: nat, used: set<nat>, b: Branch)
    requires Sized(gap, segments) && Lower(gap, segments, used, NONE, b) && b.lo == 0 && Upper(gap, segments, used, 0)
    ensures Exact(gap, segments, used, NONE, b.lastUsed)
  {
    forall i | i in used && i < segments * gap
      ensures i / gap < segments
    {
      SegmentBounds(i, gap, segments);
    }
  }

  lemma SearchedAll(gap: nat, segments: nat, used: set<nat>, lastUsed: nat, lo: nat, hi: nat)
    requires Sized(gap, segments) && lo == hi + 1 <= segments
    requires NONE !in used
    requires Lower(gap, segments, used, NONE, Branch(lastUsed, lo, hi)) && Upper(gap, segments, used, lo)
    ensures Exact(gap, segments, used, NONE, lastUsed)
  {
    if NoGaps(used, gap) {
      SegmentBounds(lastUsed, gap, segments);
      forall i | i in used && i < segments * gap
        ensures i <= lastUsed
      {
        SegmentBounds(i, gap, segments);
      }
      assert lastUsed in Reachable(used, segments * gap, NONE);
    }
  }

  /** What a search of one segment says about the whole branch. */
  lemma SegmentOutcome(gap: nat, segments: nat, used: set<nat>, b: Branch, known: Exists, found: nat)
    requires Sized(gap, segments) && Active(b, segments) && Lower(gap, segments, used, NONE, b)
    requires Reports(known, used)
    requires IsLast(InSegmentOf(used, gap, Mid(b)), found)
    ensures found != NONE ==> Lower(gap, segments, used, NONE, Branch(found, Mid(b) + 1, b.hi))
    ensures found == NONE ==> Upper(gap, segments, used, Mid(b))
  {
    MidSegment(gap, segments, b, found);
    assert FoundIn(gap, segments, b, used) == InSegmentOf(used, gap, Mid(b));
    if found != NONE {
      if b.lastUsed != NONE {
        SegmentBounds(b.lastUsed, gap, Mid(b));
      }
      HitLower(gap, segments, used, used, NONE, b, found);
    } else {
      MidSegment(gap, segments, b, b.lastUsed);
      MissUpper(gap, segments, used, used, NONE, b, b.lastUsed);
    }
  }

  /** The last used address of a segment. */
  method LastInSegment(gap: nat, segments: nat, mid: nat, known: Exists, ghost used: set<nat>) returns (last: nat)
    requires Sized(gap, segments) && mid < segments && Reports(known, used)
    ensures IsLast(InSegmentOf(used, gap, mid), last)
  {
    SegmentFits(gap, segments, mid);
    hide InSegmentOf, Reports, Add32, Mul32;
    ghost var begin := mid * gap;
    SegmentIs(gap, segments, mid, used);
    var i := gap - 1;
    while i >= 0
      invariant -1 <= i < gap
      invariant forall k :: k in InSegmentOf(used, gap, mid) ==> k <= begin + i
    {
      var index := Add32(Mul32(mid, gap), i);
      IndexIs(gap, segments, mid, i);
      Reported(known, used, index);
      if known(index) {
        return index;
      }
      i := i - 1;
    }
    assert InSegmentOf(used, gap, mid) == {};
    last := NONE;
  }

  lemma SegmentIs(gap: nat, segments: nat, mid: nat, used: set<nat>)
    requires Sized(gap, segments) && mid < segments
    ensures forall k :: k in InSegmentOf(used, gap, mid) <==> k in used && mid * gap <= k < mid * gap + gap
  {
    forall k | k in used
      ensures k / gap == mid <==> mid * gap <= k < mid * gap + gap
    {
      SegmentBounds(k, gap, mid);
    }
  }

  lemma IndexIs(gap: nat, segments: nat, mid: nat, i: nat)
    requires Sized(gap, segments) && mid < segments && i < gap
    ensures Add32(Mul32(mid, gap), i) == mid * gap + i < HARDENED_KEY_START
  {
    SegmentFits(gap, segments, mid);
    ProductFits(mid * gap);
  }

  lemma Reported(known: Exists, used: set<nat>, index: nat)
    requires Reports(known, used) && index < HARDENED_KEY_START
    ensures index in used <==> known(index)
  {
  }

  /** The last used account is in the segment below the lower bound. */
  ghost predicate AccountsBelow(accounts: set<nat>, scanLen: nat, lo: nat, lastUsed: nat)
    requires scanLen > 0
  {
    && (if lo == 0 then lastUsed == 0 else lastUsed in accounts && lastUsed / scanLen == lo - 1)
    && forall i :: i in accounts && i / scanLen < lo ==> i <= lastUsed
  }

  ghost predicate AccountsUpTo(accounts: set<nat>, scanLen: nat, top: nat)
    requires scanLen > 0
  {
    NoGaps(accounts, scanLen) ==> forall i :: i in accounts ==> i / scanLen < top
  }

  /** The last used account, or the first if none is.  Accounts are bisected like
      addresses, but the partial segment at the end is searched too, so nothing is
      missed.  With segments of a single account the search ends exactly if some
      account in the middle of its way up is not used. */
  method FindLastUsedAccount(scanLen: nat, used: Exists, ghost accounts: set<nat>) returns (lastUsed: nat)
    requires 0 < scanLen < TWO32 && Reports(used, accounts)
    requires scanLen > 1 || !MiddlesUsed(accounts)
    ensures NoGaps(accounts, scanLen) ==> if accounts == {} then lastUsed == 0 else IsLast(accounts, lastUsed)
  {
    lastUsed := 0;
    var lo: nat, hi: nat := 0, HARDENED_KEY_START / scanLen;
    ghost var rounds: nat, miss: nat := 0, FirstMiss(accounts, scanLen);
    StartAccounts(accounts, scanLen);
    while lo <= hi
      invariant lo <= hi + 1 <= HARDENED_KEY_START / scanLen + 1
      invariant AccountsBelow(accounts, scanLen, lo, lastUsed) && AccountsUpTo(accounts, scanLen, hi + 1)
      invariant OnTheWayUp(accounts, scanLen, lo, hi, rounds, miss)
      decreases hi == HARDENED_KEY_START, if hi == HARDENED_KEY_START then miss - rounds else hi + 1 - lo
    {
      AccountMiddle(accounts, scanLen, lo, hi, lastUsed);
      hide AccountsBelow, AccountsUpTo, Reports, OnTheWayUp, MiddlesUsed;
      var mid := Add32(hi, lo) / 2;
      var found, account := LastAccountInSegment(scanLen, mid, used, accounts);
      if found {
        HitAccount(accounts, scanLen, lo, lastUsed, mid, account);
        OneUp(accounts, scanLen, lo, hi, rounds, miss, account);
        lastUsed := account;
        lo := mid + 1;
        rounds := rounds + 1;
      } else {
        MissAccount(accounts, scanLen, mid);
        if mid == 0 {
          NoAccount(accounts, scanLen, lo, lastUsed);
          return;
        }
        hi := mid - 1;
        NotUp(accounts, scanLen, lo, hi, rounds, miss);
      }
    }
  }

  lemma StartAccounts(accounts: set<nat>, scanLen: nat)
    requires scanLen > 0 && forall i :: i in accounts ==> i < HARDENED_KEY_START
    ensures AccountsBelow(accounts, scanLen, 0, 0)
    ensures AccountsUpTo(accounts, scanLen, HARDENED_KEY_START / scanLen + 1)
  {
    forall i | i in accounts
      ensures i / scanLen < HARDENED_KEY_START / scanLen + 1
    {
      DivMono(i, HARDENED_KEY_START, scanLen);
    }
  }

  /** The middle is between the bounds unless both are the number of accounts, which
      takes an account gap limit of one and the last account used.  Then it wraps
      around to zero. */
  lemma AccountMiddle(accounts: set<nat>, scanLen: nat, lo: nat, hi: nat, lastUsed: nat)
    requires scanLen > 0 && lo <= hi <= HARDENED_KEY_START / scanLen && AccountsBelow(accounts, scanLen, lo, lastUsed)
    ensures hi <= HARDENED_KEY_START && Add32(hi, lo) / 2 <= hi
    ensures lo <= Add32(hi, lo) / 2 <==> lo < HARDENED_KEY_START
    ensures lo == HARDENED_KEY_START ==>
              scanLen == 1 && lastUsed == HARDENED_KEY_START - 1 && lastUsed in accounts && Add32(hi, lo) / 2 == 0
    ensures hi == HARDENED_KEY_START ==> scanLen == 1
  {
    if scanLen > 1 {
      DivideLess(scanLen);
    }
  }

  // ----- segments of a single account -----

  /** The lower bound after as many rounds that found their account used; the upper
      bound is the number of accounts still. */
  ghost function LoAfter(rounds: nat): nat
    ensures LoAfter(rounds) <= HARDENED_KEY_START
  {
    if rounds == 0 then 0 else Add32(HARDENED_KEY_START, LoAfter(rounds - 1)) / 2 + 1
  }

  /** The accounts looked at on the way: up to the last one, then the first, and so
      around again. */
  ghost function Middle(j: nat): (account: nat)
    requires j < 32
    ensures account < HARDENED_KEY_START
  {
    if j == 31 then 0 else
      PowerFits(30 - j);
      HARDENED_KEY_START - Powers.Pow2(30 - j)
  }

  lemma {:induction false} MiddleAfter(rounds: nat)
    ensures Add32(HARDENED_KEY_START, LoAfter(rounds)) / 2 == Middle(rounds % 32)
    ensures LoAfter(rounds + 1) == Middle(rounds % 32) + 1
  {
    hide LoAfter, Middle, Powers.Pow2;
    LoNext(rounds);
    if rounds == 0 {
      FirstMiddle();
    } else {
      MiddleAfter(rounds - 1);
      NextMiddle((rounds - 1) % 32);
      NextRound(rounds - 1);
    }
  }

  lemma FirstMiddle()
    ensures Add32(HARDENED_KEY_START, 0) / 2 == Middle(0)
  {
    HighestPower();
  }

  lemma LoNext(rounds: nat)
    ensures LoAfter(0) == 0 && LoAfter(rounds + 1) == Add32(HARDENED_KEY_START, LoAfter(rounds)) / 2 + 1
  {
  }

  lemma NextRound(n: nat)
    ensures (n + 1) % 32 == if n % 32 == 31 then 0 else n % 32 + 1
  {
  }

  lemma NextMiddle(j: nat)
    requires j < 32
    ensures Add32(HARDENED_KEY_START, Middle(j) + 1) / 2 == Middle(if j == 31 then 0 else j + 1)
  {
    if j == 31 {
      HighestPower();
    } else if j < 30 {
      assert Powers.Pow2(30 - j) == 2 * Powers.Pow2(30 - (j + 1));
    }
  }

  lemma PowerFits(k: nat)
    requires k <= 30
    ensures 0 < Powers.Pow2(k) <= HARDENED_KEY_START
  {
    HighestPower();
    PowersGrow(k, 30);
  }

  lemma {:induction false} PowersGrow(k: nat, n: nat)
    requires k <= n
    ensures Powers.Pow2(k) <= Powers.Pow2(n)
  {
    if k < n {
      PowersGrow(k, n - 1);
    }
  }

  lemma HighestPower()
    ensures Powers.Pow2(30) == HARDENED_KEY_START / 2
  {
    Powers.Pow2Adds(15, 15);
    assert Powers.Pow2(15) == 32768;
  }

  ghost predicate MiddlesUsed(accounts: set<nat>) {
    forall j: nat :: j < 32 ==> Middle(j) in accounts
  }

  /** Then the search never ends: in every round the account in the middle is used,
      and the bounds, taken around, have not met. */
  lemma NeverEnds(accounts: set<nat>, rounds: nat)
    requires MiddlesUsed(accounts)
    ensures var lo := LoAfter(rounds);
            var mid := Add32(HARDENED_KEY_START, lo) / 2;
            && lo <= HARDENED_KEY_START && InSegmentOf(accounts, 1, mid) == {mid} && LoAfter(rounds + 1) == mid + 1
  {
    MiddleAfter(rounds);
  }

  /** Under the gap hypothesis that is so exactly if the very last account is used. */
  lemma LastMeansAll(accounts: set<nat>)
    requires NoGaps(accounts, 1) && forall i :: i in accounts ==> i < HARDENED_KEY_START
    ensures MiddlesUsed(accounts) <==> HARDENED_KEY_START - 1 in accounts
  {
    assert Middle(30) == HARDENED_KEY_START - 1;
    if HARDENED_KEY_START - 1 in accounts {
      forall j: nat | j < 32
        ensures Middle(j) in accounts
      {
        var i := Middle(j);
        assert i + 1 <= HARDENED_KEY_START - 1 ==> UsedWithin(accounts, i, 1);
      }
    }
  }

  /** A round of the way up that finds its account unused. */
  ghost function FirstMiss(accounts: set<nat>, scanLen: nat): (j: nat)
    requires scanLen > 1 || !MiddlesUsed(accounts)
    ensures scanLen <= 1 ==> j < 32 && Middle(j) !in accounts
  {
    if scanLen > 1 then 0
    else
      var j: nat :| j < 32 && Middle(j) !in accounts;
      j
  }

  /** While the upper bound is the number of accounts, every round has found its
      account used. */
  ghost predicate OnTheWayUp(accounts: set<nat>, scanLen: nat, lo: nat, hi: nat, rounds: nat, miss: nat) {
    hi == HARDENED_KEY_START ==>
      && scanLen == 1 && lo == LoAfter(rounds)
      && rounds <= miss < 32 && Middle(miss) !in accounts
  }

  lemma OneUp(accounts: set<nat>, scanLen: nat, lo: nat, hi: nat, rounds: nat, miss: nat, account: nat)
    requires OnTheWayUp(accounts, scanLen, lo, hi, rounds, miss) && scanLen > 0 && lo <= hi <= HARDENED_KEY_START
    requires account in InSegmentOf(accounts, scanLen, Add32(hi, lo) / 2)
    ensures OnTheWayUp(accounts, scanLen, Add32(hi, lo) / 2 + 1, hi, rounds + 1, miss)
    ensures hi == HARDENED_KEY_START ==> rounds < miss
  {
    hide LoAfter, Middle;
    if hi == HARDENED_KEY_START {
      MiddleAfter(rounds);
      assert account == account / 1 == Middle(rounds % 32);
      assert rounds % 32 == rounds;
    }
  }

  lemma NotUp(accounts: set<nat>, scanLen: nat, lo: nat, hi: nat, rounds: nat, miss: nat)
    requires hi < HARDENED_KEY_START
    ensures OnTheWayUp(accounts, scanLen, lo, hi, rounds, miss)
  {
  }

  lemma DivideLess(scanLen: nat)
    requires scanLen > 1
    ensures HARDENED_KEY_START / scanLen < HARDENED_KEY_START
  {
    SegmentBounds(HARDENED_KEY_START, scanLen, HARDENED_KEY_START);
  }

  lemma HitAccount(accounts: set<nat>, scanLen: nat, lo: nat, lastUsed: nat, mid: nat, account: nat)
    requires scanLen > 0 && IsLast(InSegmentOf(accounts, scanLen, mid), account)
    requires account in InSegmentOf(accounts, scanLen, mid)
    ensures AccountsBelow(accounts, scanLen, mid + 1, account)
  {
    forall i | i in accounts && i / scanLen < mid + 1
      ensures i <= account
    {
      if i / scanLen == mid {
        assert i in InSegmentOf(accounts, scanLen, mid);
      } else if i > account {
        DivMono(account, i, scanLen);
      }
    }
  }

  lemma SomeUsed(used: set<nat>, gap: nat, segment: nat, i: nat)
    requires gap > 0 && NoGaps(used, gap) && i in used && segment <= i / gap
    ensures InSegmentOf(used, gap, segment) != {}
  {
    var u := SegmentUsed(used, gap, segment, i);
    assert u in InSegmentOf(used, gap, segment);
  }

  lemma MissAccount(accounts: set<nat>, scanLen: nat, mid: nat)
    requires scanLen > 0 && InSegmentOf(accounts, scanLen, mid) == {}
    ensures AccountsUpTo(accounts, scanLen, mid)
  {
    if NoGaps(accounts, scanLen) {
      forall i | i in accounts
        ensures i / scanLen < mid
      {
        if i / scanLen >= mid {
          SomeUsed(accounts, scanLen, mid, i);
        }
      }
    }
  }

  lemma NoAccount(accounts: set<nat>, scanLen: nat, lo: nat, lastUsed: nat)
    requires scanLen > 0 && AccountsBelow(accounts, scanLen, lo, lastUsed)
    requires AccountsUpTo(accounts, scanLen, 0)
    ensures NoGaps(accounts, scanLen) ==> accounts == {} && lastUsed == 0
  {
  }

  /** The last used account of a segment; accounts beyond the last are skipped. */
  method LastAccountInSegment(scanLen: nat, mid: nat, used: Exists, ghost accounts: set<nat>)
    returns (found: bool, account: nat)
    requires 0 < scanLen < TWO32 && mid <= HARDENED_KEY_START / scanLen && Reports(used, accounts)
    ensures !found ==> InSegmentOf(accounts, scanLen, mid) == {}
    ensures found ==> account in InSegmentOf(accounts, scanLen, mid)
    ensures found ==> IsLast(InSegmentOf(accounts, scanLen, mid), account)
  {
    AccountFits(scanLen, mid);
    forall k | k in accounts && k / scanLen == mid
      ensures mid * scanLen <= k < mid * scanLen + scanLen
    {
      SegmentBounds(k, scanLen, mid);
    }
    var i := scanLen - 1;
    account := 0;
    while i >= 0
      invariant -1 <= i < scanLen
      invariant forall k :: k in accounts && k / scanLen == mid ==> k <= mid * scanLen + i
    {
      account := Add32(Mul32(mid, scanLen), i);
      if account < HARDENED_KEY_START && used(account) {
        SegmentBounds(account, scanLen, mid);
        assert account in InSegmentOf(accounts, scanLen, mid);
        return true, account;
      }
      i := i - 1;
    }
    assert InSegmentOf(accounts, scanLen, mid) == {};
    found := false;
  }

  lemma AccountFits(scanLen: nat, mid: nat)
    requires 0 < scanLen < TWO32 && mid <= HARDENED_KEY_START / scanLen
    ensures mid * scanLen + scanLen <= TWO32 && Mul32(mid, scanLen) == mid * scanLen
  {
    var last := HARDENED_KEY_START / scanLen;
    SegmentBounds(HARDENED_KEY_START, scanLen, last);
    Powers.MulLe(mid, last, scanLen);
    if scanLen > HARDENED_KEY_START {
      SegmentBounds(HARDENED_KEY_START, scanLen, 0);
      assert mid == 0;
    }
    ProductFits(mid * scanLen);
  }

  lemma ProductFits(product: nat)
    requires product < TWO32
    ensures product % TWO32 == product
  {
  }

  class AddrFinder {
    const gap: nat
    const segments: nat
    const scriptOf: Scripts
    const usage: array<Branch>
    /** The scripts that fetched blocks commit to, by position. */
    var commitments: map<nat, set<T.Script>>

    ghost predicate Valid()
      reads this, usage
    {
      && Sized(gap, segments)
      && forall j :: 0 <= j < usage.Length ==> Fits(usage[j])
    }

    /** The commitments recorded are those of the blocks. */
    ghost predicate Caches(chain: seq<T.Block>)
      reads this
    {
      forall k :: k in commitments ==> k < |chain| && CachesOne(chain[k], commitments[k])
    }

    ghost predicate CachesOne(b: T.Block, c: set<T.Script>) {
      forall p :: scriptOf(p) in c <==> CommitsTo(scriptOf, b, p)
    }

    /** The filter entries for some addresses. */
    function Asked(data: seq<Path>): set<C.Entry> {
      set p | p in data :: C.PkScript(scriptOf(p))
    }

    /** Starts from the last used indexes the database knows. */
    constructor (gapLimit: nat, scriptOf: Scripts, lastUsed: seq<nat>)
      requires 0 < gapLimit <= HARDENED_KEY_START
      requires forall j :: 0 <= j < |lastUsed| ==> lastUsed[j] == NONE || lastUsed[j] < HARDENED_KEY_START
      ensures Valid() && fresh(usage) && gap == gapLimit && this.scriptOf == scriptOf && commitments == map[]
      ensures usage[..] == seq(|lastUsed|, j requires 0 <= j < |lastUsed| => Start(gap, segments, lastUsed[j]))
    {
      this.scriptOf := scriptOf;
      gap := gapLimit;
      segments := HARDENED_KEY_START / gapLimit;
      commitments := map[];
      SizedFrom(gapLimit);
      usage := new Branch[|lastUsed|](j requires 0 <= j < |lastUsed| =>
        Branch(lastUsed[j], FirstSegment(gapLimit, lastUsed[j]), Below(HARDENED_KEY_START / gapLimit)));
    }

    /** The addresses of this round: one segment of every branch still active. */
    method RoundAddresses() returns (data: seq<Path>)
      requires Valid()
      ensures forall p :: p in data <==>
                p.branch < usage.Length && InSegment(gap, segments, usage[p.branch], p.index)
    {
      data := [];
      var j := 0;
      while j < usage.Length
        invariant 0 <= j <= usage.Length
        invariant forall p :: p in data <==> p.branch < j && InSegment(gap, segments, usage[p.branch], p.index)
      {
        var more := BranchAddresses(j, usage[j]);
        data := data + more;
        j := j + 1;
      }
    }

    method BranchAddresses(branch: nat, b: Branch) returns (data: seq<Path>)
      requires Sized(gap, segments) && Fits(b)
      ensures forall p :: p in data <==> p.branch == branch && InSegment(gap, segments, b, p.index)
    {
      data := [];
      if b.lo > b.hi || b.hi >= segments {
        return;
      }
      var mid := Add32(b.hi, b.lo) / 2;
      SegmentFits(gap, segments, mid);
      assert Mul32(mid, gap) == mid * gap;
      var i := 0;
      while i < gap
        invariant 0 <= i <= gap
        invariant forall p :: p in data <==> p.branch == branch && mid * gap <= p.index < mid * gap + i
      {
        data := data + [Path(branch, Add32(Mul32(mid, gap), i))];
        i := i + 1;
      }
      forall p: Path | p.branch == branch
        ensures p in data <==> InSegment(gap, segments, b, p.index)
      {
        SegmentBounds(p.index, gap, mid);
      }
    }

    /** Fetches the blocks whose filters match, unless fetched before. */
    method Filter(chain: seq<T.Block>, matches: C.Filter, data: seq<Path>)
      requires Caches(chain) && C.NoFalseNegatives(matches)
      modifies this`commitments
      ensures Caches(chain)
      ensures forall k, p :: 0 <= k < |chain| && p in data && CommitsTo(scriptOf, chain[k], p) ==> k in commitments
      ensures old(commitments.Keys) <= commitments.Keys
      ensures forall k :: k in commitments ==> k in old(commitments) || matches(chain[k], Asked(data))
    {
      var k := 0;
      hide CachesOne, CommitsTo, C.Hits;
      while k < |chain|
        invariant 0 <= k <= |chain| && Caches(chain)
        invariant forall i, p :: 0 <= i < k && p in data && CommitsTo(scriptOf, chain[i], p) ==> i in commitments
        invariant old(commitments.Keys) <= commitments.Keys
        invariant forall i :: i in commitments ==> i in old(commitments) || matches(chain[i], Asked(data))
      {
        AskedHits(data, chain[k]);
        if k !in commitments && matches(chain[k], Asked(data)) {
          var c := BlockCommitments(chain[k]);
          IsCached(chain[k], c);
          commitments := commitments[k := c];
        }
        k := k + 1;
      }
    }

    lemma IsCached(b: T.Block, c: set<T.Script>)
      requires forall s :: s in c <==> C.PkScript(s) in C.Commitments(b)
      ensures CachesOne(b, c)
    {
    }

    lemma AskedHits(data: seq<Path>, b: T.Block)
      ensures (exists p :: p in data && CommitsTo(scriptOf, b, p)) ==> C.Hits(b, Asked(data))
    {
      if p :| p in data && CommitsTo(scriptOf, b, p) {
        assert C.PkScript(scriptOf(p)) in C.Commitments(b) * Asked(data);
      }
    }

    /** Records the addresses of this round that the fetched blocks pay to.  The
        blocks are taken in any order. */
    method RecordUse(ghost chain: seq<T.Block>, data: seq<Path>)
      requires Valid() && Caches(chain)
      requires forall p :: p in data <==> p.branch < usage.Length && InSegment(gap, segments, usage[p.branch], p.index)
      requires forall k, p :: 0 <= k < |chain| && p in data && CommitsTo(scriptOf, chain[k], p) ==> k in commitments
      modifies usage
      ensures forall j :: 0 <= j < usage.Length ==>
                && usage[j] == old(usage[j]).(lastUsed := usage[j].lastUsed)
                && Raised(old(usage[j]).lastUsed, FoundIn(gap, segments, old(usage[j]), Seen(scriptOf, chain, j)), usage[j].lastUsed)
    {
      var rest := commitments.Keys;
      ghost var hits: set<Path> := {};
      forall p | p in data
        ensures p.index < HARDENED_KEY_START
      {
        MidSegment(gap, segments, usage[p.branch], p.index);
      }
      while rest != {}
        invariant rest <= commitments.Keys
        invariant forall p :: p in hits ==> p in data && p.index in Seen(scriptOf, chain, p.branch)
        invariant forall k, p :: k in commitments && k !in rest && p in data && scriptOf(p) in commitments[k] ==> p in hits
        invariant forall j :: 0 <= j < usage.Length ==>
                    && usage[j] == old(usage[j]).(lastUsed := usage[j].lastUsed)
                    && Raised(old(usage[j]).lastUsed, HitsOf(hits, j), usage[j].lastUsed)
        decreases rest
      {
        hide Raised, Valid, FoundIn, Seen;
        var k :| k in rest;
        rest := rest - {k};
        hits := RecordBlock(chain, data, k, old(usage[..]), hits);
      }
      forall j | 0 <= j < usage.Length
        ensures HitsOf(hits, j) == FoundIn(gap, segments, old(usage[j]), Seen(scriptOf, chain, j))
      {
        AllHits(scriptOf, gap, segments, chain, data, hits, old(usage[j]), j);
      }
    }

    method RecordBlock(ghost chain: seq<T.Block>, data: seq<Path>, k: nat, ghost before: seq<Branch>, ghost hits: set<Path>)
      returns (ghost hits': set<Path>)
      requires Caches(chain) && k in commitments && |before| == usage.Length
      requires forall p :: p in data ==> p.branch < usage.Length && p.index < HARDENED_KEY_START
      requires forall p :: p in hits ==> p in data && p.index in Seen(scriptOf, chain, p.branch)
      requires forall j :: 0 <= j < usage.Length ==>
                 && usage[j] == before[j].(lastUsed := usage[j].lastUsed)
                 && Raised(before[j].lastUsed, HitsOf(hits, j), usage[j].lastUsed)
      modifies usage
      ensures hits <= hits'
      ensures forall p :: p in data && scriptOf(p) in commitments[k] ==> p in hits'
      ensures forall p :: p in hits' ==> p in data && p.index in Seen(scriptOf, chain, p.branch)
      ensures forall j :: 0 <= j < usage.Length ==>
                && usage[j] == before[j].(lastUsed := usage[j].lastUsed)
                && Raised(before[j].lastUsed, HitsOf(hits', j), usage[j].lastUsed)
    {
      hide Raised, HitsOf, Seen, CachesOne;
      hits' := hits;
      var i := 0;
      while i < |data|
        invariant 0 <= i <= |data| && hits <= hits'
        invariant forall p :: p in data[..i] && scriptOf(p) in commitments[k] ==> p in hits'
        invariant forall p :: p in hits' ==> p in data && p.index in Seen(scriptOf, chain, p.branch)
        invariant forall j :: 0 <= j < usage.Length ==>
                    && usage[j] == before[j].(lastUsed := usage[j].lastUsed)
                    && Raised(before[j].lastUsed, HitsOf(hits', j), usage[j].lastUsed)
      {
        var p := data[i];
        if scriptOf(p) in commitments[k] {
          SeenIndex(chain, k, p);
          var u := usage[p.branch];
          HitOnce(before, usage[..], hits', p);
          if u.lastUsed == NONE || p.index > u.lastUsed {
            usage[p.branch] := u.(lastUsed := p.index);
          }
          hits' := hits' + {p};
        }
        i := i + 1;
      }
    }

    lemma SeenIndex(chain: seq<T.Block>, k: nat, p: Path)
      requires Caches(chain) && k in commitments && scriptOf(p) in commitments[k] && p.index < HARDENED_KEY_START
      ensures p.index in Seen(scriptOf, chain, p.branch)
    {
      assert CommitsTo(scriptOf, chain[k], p) && Path(p.branch, p.index) == p;
      assert SeenBy(scriptOf, chain, p);
    }

    /** The bounds of every branch for the next round. */
    method Narrow()
      requires Valid()
      modifies usage
      ensures forall j :: 0 <= j < usage.Length ==> usage[j] == Narrowed(gap, old(usage[j]))
    {
      var j := 0;
      while j < usage.Length
        invariant 0 <= j <= usage.Length
        invariant forall i :: 0 <= i < j ==> usage[i] == Narrowed(gap, old(usage[i]))
        invariant forall i :: j <= i < usage.Length ==> usage[i] == old(usage[i])
      {
        var u := usage[j];
        if u.lo <= u.hi {
          var mid := Add32(u.hi, u.lo) / 2;
          var begin := Mul32(mid, gap);
          var end := Add32(begin, gap);
          if u.lastUsed >= begin && u.lastUsed < end {
            u := u.(lo := Add32(mid, 1));
          } else {
            u := u.(hi := Sub32(mid, 1));
          }
        }
        usage[j] := u;
        j := j + 1;
      }
    }

    ghost predicate Searches(used: seq<set<nat>>, last0: seq<nat>, left: Left)
      reads this, usage
      requires gap > 0
    {
      && |used| == |last0| == usage.Length
      && LeftOk(segments, left)
      && forall j :: 0 <= j < usage.Length ==> Searching(gap, segments, used[j], last0[j], usage[j], left)
    }

    /** What is left to bisect of each branch gives what its whole search does. */
    ghost predicate Bisects(chain: seq<T.Block>, last0: seq<nat>)
      reads this, usage
      requires Valid()
    {
      && |last0| == usage.Length
      && forall j :: 0 <= j < usage.Length ==> BisectsOne(Seen(scriptOf, chain, j), last0[j], usage[j])
    }

    ghost predicate BisectsOne(seen: set<nat>, last0: nat, b: Branch) {
      && Sized(gap, segments) && Fits(b) && last0 < TWO32 && NONE !in seen
      && Bisect(gap, segments, seen, b) == Bisected(gap, segments, seen, last0)
    }

    /** One round; nothing is left to do if no branch is active. */
    method Round(chain: seq<T.Block>, matches: C.Filter, ghost used: seq<set<nat>>, ghost last0: seq<nat>, ghost left: Left)
      returns (done: bool, ghost left': Left)
      requires Valid() && Caches(chain) && C.NoFalseNegatives(matches) && Searches(used, last0, left) && Bisects(chain, last0)
      requires forall j :: 0 <= j < |used| ==> Covers(used[j], Seen(scriptOf, chain, j), last0[j])
      modifies this`commitments, usage
      ensures Valid() && Caches(chain) && Searches(used, last0, left') && Bisects(chain, last0)
      ensures done ==> left' == left && forall j :: 0 <= j < usage.Length ==> !Active(usage[j], segments)
      ensures !done ==> (left'.again && !left.again) || (left'.again == left.again && left'.e + left'.m < left.e + left.m)
    {
      left' := left;
      var data := RoundAddresses();
      hide Searching, LeftOk, Covers, C.NoFalseNegatives, Narrowed, CachesOne, BisectsOne, Seen, FoundIn, Raised;
      if |data| == 0 {
        NoneActive(gap, segments, usage[..], data);
        return true, left;
      }
      assert InSegment(gap, segments, usage[data[0].branch], data[0].index);
      ActiveRuns(gap, segments, used[data[0].branch], last0[data[0].branch], usage[data[0].branch], left);
      NextLeft(gap, segments, left);
      left' := Next(segments, left);
      ghost var before := usage[..];
      Filter(chain, matches, data);
      RecordUse(chain, data);
      ghost var found := usage[..];
      assert forall j :: 0 <= j < usage.Length ==> Fits(found[j]);
      Narrow();
      forall j | 0 <= j < usage.Length
        ensures Fits(usage[j]) && Searching(gap, segments, used[j], last0[j], usage[j], left')
        ensures BisectsOne(Seen(scriptOf, chain, j), last0[j], usage[j])
      {
        assert found[j] == before[j].(lastUsed := found[j].lastUsed);
        OneRound(used[j], Seen(scriptOf, chain, j), last0[j], before[j], found[j].lastUsed, left);
      }
      done := false;
    }

    /** What a round does to one branch. */
    lemma OneRound(used: set<nat>, seen: set<nat>, last0: nat, b: Branch, last: nat, left: Left)
      requires Sized(gap, segments) && Fits(b) && Covers(used, seen, last0) && Halvable(segments, left)
      requires Searching(gap, segments, used, last0, b, left) && BisectsOne(seen, last0, b)
      requires Raised(b.lastUsed, FoundIn(gap, segments, b, seen), last)
      ensures var b' := Narrowed(gap, b.(lastUsed := last));
              Fits(b') && Searching(gap, segments, used, last0, b', Next(segments, left)) && BisectsOne(seen, last0, b')
    {
      hide Searching, Covers, Narrowed, FoundIn, Raised;
      RoundKeeps(gap, segments, used, seen, last0, b, last, left);
      StartFits(gap, segments, last0);
      RoundBisects(gap, segments, used, seen, last0, b, last, left);
    }

    /** Searches the blocks from the starting block up to, but not including, the
        tip: the source reads as many filters as there are blocks above the
        starting block, and begins with that block itself.

        Each branch ends with what bisecting it alone gives for the indexes that the
        filters of these blocks commit to.  Under the gap hypothesis for those, that
        is the last one within whole segments; and for all indexes that any block
        pays to, the tip included, it is the last one exactly as `FoundOfAll` says. */
    method Find(fromStart: seq<T.Block>, matches: C.Filter, ghost used: seq<set<nat>>, ghost last0: seq<nat>)
      requires Valid() && |fromStart| > 0 && commitments == map[]
      requires |used| == |last0| == usage.Length
      requires forall j :: 0 <= j < usage.Length ==> last0[j] < TWO32 && usage[j] == Start(gap, segments, last0[j])
      requires C.NoFalseNegatives(matches)
      requires forall j :: 0 <= j < |used| ==> Covers(used[j], Seen(scriptOf, fromStart[..|fromStart| - 1], j), last0[j])
      modifies this`commitments, usage
      ensures forall j :: 0 <= j < usage.Length ==>
                && Exact(gap, segments, used[j], last0[j], usage[j].lastUsed)
                && usage[j].lastUsed == Bisected(gap, segments, Seen(scriptOf, fromStart[..|fromStart| - 1], j), last0[j])
      ensures forall j :: 0 <= j < usage.Length ==>
                FoundOfAll(gap, segments, used[j], used[j] + Paid(scriptOf, fromStart, j), last0[j], usage[j].lastUsed)
    {
      var chain := fromStart[..|fromStart| - 1];
      ghost var left := Left(segments, segments, false);
      hide Searching, LeftOk, Covers, C.NoFalseNegatives, Exact, FoundOfAll, BisectsOne, Seen, Paid, CachesOne;
      forall j | 0 <= j < usage.Length
        ensures Searching(gap, segments, used[j], last0[j], usage[j], left)
        ensures BisectsOne(Seen(scriptOf, chain, j), last0[j], usage[j])
      {
        StartSearching(gap, segments, used[j], Seen(scriptOf, chain, j), last0[j]);
        StartBisect(used[j], Seen(scriptOf, chain, j), last0[j]);
      }
      StartLeft(gap, segments);
      var done := false;
      while !done
        invariant Valid() && Caches(chain) && Searches(used, last0, left) && Bisects(chain, last0)
        invariant done ==> forall j :: 0 <= j < usage.Length ==> !Active(usage[j], segments)
        decreases !done, !left.again, left.e + left.m
      {
        done, left := Round(chain, matches, used, last0, left);
      }
      forall j | 0 <= j < usage.Length
        ensures usage[j].lastUsed == Bisected(gap, segments, Seen(scriptOf, chain, j), last0[j])
        ensures Exact(gap, segments, used[j], last0[j], usage[j].lastUsed)
        ensures FoundOfAll(gap, segments, used[j], used[j] + Paid(scriptOf, fromStart, j), last0[j], usage[j].lastUsed)
      {
        EndBisect(Seen(scriptOf, chain, j), last0[j], usage[j]);
        AllExact(gap, segments, used[j], Seen(scriptOf, chain, j), last0[j], usage[j], left);
        ExactOfAll(gap, segments, used[j], used[j] + Paid(scriptOf, fromStart, j), last0[j], usage[j].lastUsed);
      }
    }

    lemma StartBisect(used: set<nat>, seen: set<nat>, last0: nat)
      requires Sized(gap, segments) && Covers(used, seen, last0)
      ensures BisectsOne(seen, last0, Start(gap, segments, last0))
    {
      StartFits(gap, segments, last0);
    }

    lemma EndBisect(seen: set<nat>, last0: nat, b: Branch)
      requires BisectsOne(seen, last0, b) && !Active(b, segments)
      ensures last0 < TWO32 && Sized(gap, segments) && b.lastUsed == Bisected(gap, segments, seen, last0)
    {
      NoMore(gap, segments, seen, b);
    }
  }

  lemma SizedFrom(gap: nat)
    requires 0 < gap <= HARDENED_KEY_START
    ensures Sized(gap, HARDENED_KEY_START / gap) && HARDENED_KEY_START / gap > 0
  {
    SegmentBounds(HARDENED_KEY_START, gap, 0);
    SegmentBounds(HARDENED_KEY_START, gap, HARDENED_KEY_START + 1);
    assert HARDENED_KEY_START / gap < HARDENED_KEY_START + 1;
  }

  lemma StartLeft(gap: nat, segments: nat)
    requires Sized(gap, segments)
    ensures LeftOk(segments, Left(segments, segments, false))
  {
  }

  lemma StartSearching(gap: nat, segments: nat, used: set<nat>, seen: set<nat>, last0: nat)
    requires Sized(gap, segments) && Covers(used, seen, last0)
    ensures Searching(gap, segments, used, last0, Start(gap, segments, last0), Left(segments, segments, false))
  {
    SizedFrom(gap);
    if last0 != NONE {
      DivMono(last0, HARDENED_KEY_START, gap);
    }
    StartLower(gap, segments, used, seen, last0);
    hide Lower, Covers, Sized;
  }

  lemma StartLower(gap: nat, segments: nat, used: set<nat>, seen: set<nat>, last0: nat)
    requires Sized(gap, segments) && Covers(used, seen, last0)
    ensures Lower(gap, segments, used, last0, Start(gap, segments, last0))
  {
    if last0 == NONE {
      forall i | i in used
        ensures i / gap >= 0
      {
        SegmentBounds(i, gap, 0);
      }
    } else {
      forall i | i in used && i / gap < last0 / gap
        ensures i <= last0
      {
        NotBelow(i, last0, gap);
      }
    }
  }

  lemma NotBelow(i: nat, j: nat, gap: nat)
    requires gap > 0 && i / gap < j / gap
    ensures i <= j
  {
    if i > j {
      DivMono(j, i, gap);
    }
  }

  lemma AllExact(gap: nat, segments: nat, used: set<nat>, seen: set<nat>, last0: nat, b: Branch, left: Left)
    requires Sized(gap, segments) && Covers(used, seen, last0) && LeftOk(segments, left)
    requires Searching(gap, segments, used, last0, b, left) && !Active(b, segments)
    ensures Exact(gap, segments, used, last0, b.lastUsed)
  {
    hide Covers, LeftOk, Searching, NoGaps, IsLast;
    if NoGaps(used, gap) {
      FinishedExact(gap, segments, used, seen, last0, b, left);
    }
  }

  lemma NoneActive(gap: nat, segments: nat, usage: seq<Branch>, data: seq<Path>)
    requires Sized(gap, segments) && forall j :: 0 <= j < |usage| ==> Fits(usage[j])
    requires forall p :: p in data <==> p.branch < |usage| && InSegment(gap, segments, usage[p.branch], p.index)
    requires data == []
    ensures forall j :: 0 <= j < |usage| ==> !Active(usage[j], segments)
  {
    forall j | 0 <= j < |usage|
      ensures !Active(usage[j], segments)
    {
      var index := Mid(usage[j]) * gap;
      SegmentBounds(index, gap, Mid(usage[j]));
      assert Path(j, index) !in data;
    }
  }

  lemma HitOnce(before: seq<Branch>, usage: seq<Branch>, hits: set<Path>, p: Path)
    requires |before| == |usage| && p.branch < |usage| && p.index != NONE
    requires forall j :: 0 <= j < |usage| ==> Raised(before[j].lastUsed, HitsOf(hits, j), usage[j].lastUsed)
    ensures forall j :: 0 <= j < |usage| ==>
      Raised(before[j].lastUsed, HitsOf(hits + {p}, j),
             if j == p.branch && (usage[j].lastUsed == NONE || p.index > usage[j].lastUsed) then p.index else usage[j].lastUsed)
  {
    forall j | 0 <= j < |usage|
      ensures HitsOf(hits + {p}, j) == if j == p.branch then HitsOf(hits, j) + {p.index} else HitsOf(hits, j)
    {
    }
    RaisedOnce(before[p.branch].lastUsed, HitsOf(hits, p.branch), usage[p.branch].lastUsed, p.index);
  }

  lemma AllHits(scriptOf: Scripts, gap: nat, segments: nat, chain: seq<T.Block>, data: seq<Path>, hits: set<Path>, b: Branch, j: nat)
    requires Sized(gap, segments) && Fits(b)
    requires forall p :: p in data && p.branch == j <==> p.branch == j && InSegment(gap, segments, b, p.index)
    requires forall p :: p in hits ==> p in data && p.index in Seen(scriptOf, chain, p.branch)
    requires forall k, p :: 0 <= k < |chain| && p in data && CommitsTo(scriptOf, chain[k], p) ==> p in hits
    ensures HitsOf(hits, j) == FoundIn(gap, segments, b, Seen(scriptOf, chain, j))
  {
    forall i | i in FoundIn(gap, segments, b, Seen(scriptOf, chain, j))
      ensures i in HitsOf(hits, j)
    {
      assert Path(j, i) in data;
    }
  }
}

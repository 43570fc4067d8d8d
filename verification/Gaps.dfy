/** Child indexes of address branches, and the gap limit hypothesis of BIP0044
    under which a bisection over segments of indexes is exact. */
module Gaps {
  import opened Powers

  const HARDENED_KEY_START: nat := 0x8000_0000
  const TWO32: nat := 0x1_0000_0000

  /** The index before the first: no address is used. */
  const NONE: nat := 0xFFFF_FFFF

  function Add32(a: nat, b: nat): (r: nat)
    requires a < TWO32 && b < TWO32
    ensures r < TWO32
  {
    if a + b < TWO32 then a + b else a + b - TWO32
  }

  function Sub32(a: nat, b: nat): (r: nat)
    requires a < TWO32 && b < TWO32
    ensures r < TWO32
  {
    if b <= a then a - b else a + TWO32 - b
  }

  function Mul32(a: nat, b: nat): nat {
    (a * b) % TWO32
  }

  /** `last` is the greatest used index, or `NONE`. */
  ghost predicate IsLast(used: set<nat>, last: nat) {
    if used == {} then last == NONE
    else last in used && forall i :: i in used ==> i <= last
  }

  /** No run of `gap` unused indexes lies below a used one. */
  ghost predicate NoGaps(used: set<nat>, gap: nat) {
    forall from: nat, i :: i in used && from + gap <= i ==> UsedWithin(used, from, gap)
  }

  ghost predicate UsedWithin(used: set<nat>, from: nat, count: nat) {
    exists i :: i in used && from <= i < from + count
  }

  /** Segment `s` holds the indexes `s * gap` up to the next segment's. */
  lemma SegmentBounds(i: nat, gap: nat, s: nat)
    requires gap > 0
    ensures i / gap == s <==> s * gap <= i < s * gap + gap
    ensures i / gap < s <==> i < s * gap
  {
    var q := i / gap;
    FloorBounds(i, gap);
    Squeezed(i, gap, q, s);
  }

  lemma Squeezed(i: int, gap: nat, q: int, s: int)
    requires q * gap <= i < q * gap + gap
    ensures q == s <==> s * gap <= i < s * gap + gap
    ensures q < s <==> i < s * gap
  {
    if q < s {
      NextSegment(q, s, gap);
    } else if q > s {
      NextSegment(s, q, gap);
    }
  }

  lemma NextSegment(q: int, s: int, gap: nat)
    requires q < s
    ensures q * gap + gap <= s * gap
  {
    MulLe(q + 1, s, gap);
    assert (q + 1) * gap == q * gap + gap;
  }

  /** Under the gap hypothesis every segment up to a used index is used. */
  lemma SegmentUsed(used: set<nat>, gap: nat, s: nat, i: nat) returns (u: nat)
    requires gap > 0 && NoGaps(used, gap) && i in used && s <= i / gap
    ensures u in used && u / gap == s
  {
    SegmentBounds(i, gap, s);
    if i / gap == s {
      u := i;
    } else {
      SegmentBounds(i, gap, s + 1);
      assert (s + 1) * gap == s * gap + gap;
      assert UsedWithin(used, s * gap, gap);
      u :| u in used && s * gap <= u < s * gap + gap;
      SegmentBounds(u, gap, s);
    }
  }
}

/** The compact form of difficulty targets: a mantissa of 23 bits, a sign bit and
    an exponent in bytes (used by wallet/difficulty.go). */
module Compacts {
  import opened Powers

  const SIGN_BIT := 0x80_0000
  const MANTISSAS := 0x80_0000

  function Pow256(n: nat): nat {
    Pow2(8 * n)
  }

  function CompactToBig(compact: nat): int {
    var mantissa := compact % MANTISSAS;
    var negative := (compact / SIGN_BIT) % 2 == 1;
    var exponent := compact / 0x100_0000;
    var n := if exponent <= 3 then mantissa / Pow256(3 - exponent) else mantissa * Pow256(exponent - 3);
    if negative then -n else n
  }

  /** The number of bytes of a natural number. */
  function ByteLength(n: nat): nat {
    if n == 0 then 0 else 1 + ByteLength(n / 256)
  }

  /** The mantissa before it is normalized. */
  function Mantissa(n: nat): nat {
    var e := ByteLength(n);
    if e <= 3 then n * Pow256(3 - e) else n / Pow256(e - 3)
  }

  function BigToCompact(n: int): nat {
    if n == 0 then 0
    else
      var m := if n < 0 then -n else n;
      var mantissa := Mantissa(m);
      var e := ByteLength(m);
      var packed := if mantissa >= SIGN_BIT then (e + 1) * 0x100_0000 + mantissa / 256 else e * 0x100_0000 + mantissa;
      if n < 0 then packed + SIGN_BIT else packed
  }

  lemma Pow256Step(n: nat)
    ensures Pow256(n + 1) == 256 * Pow256(n)
  {
    Pow2Adds(8, 8 * n);
    assert Pow2(8) == 256;
  }

  lemma Pow256Adds(m: nat, n: nat)
    ensures Pow256(m + n) == Pow256(m) * Pow256(n)
  {
    Pow2Adds(8 * m, 8 * n);
  }

  lemma {:induction false} ByteLengthBounds(n: nat)
    requires n > 0
    ensures ByteLength(n) > 0 && Pow256(ByteLength(n) - 1) <= n < Pow256(ByteLength(n))
  {
    var q := n / 256;
    if q == 0 {
      Pow256Step(0);
    } else {
      ByteLengthBounds(q);
      Pow256Step(ByteLength(q) - 1);
      Pow256Step(ByteLength(q));
      FloorBounds(n, 256);
    }
  }

  lemma SmallPowers()
    ensures Pow256(0) == 1 && Pow256(1) == 0x100 && Pow256(2) == 0x1_0000 && Pow256(3) == 0x100_0000
  {
    Pow256Step(0);
    Pow256Step(1);
    Pow256Step(2);
  }

  /** A number of at most three bytes, shifted up to three. */
  lemma ShortMantissa(n: nat, e: nat, p: nat, lo: nat, hi: nat)
    requires lo <= n < hi && p > 0 && lo * p == 0x1_0000 && hi * p == 0x100_0000
    ensures 0x1_0000 <= n * p < 0x100_0000
  {
    MulLe(lo, n, p);
    MulLe(n + 1, hi, p);
  }

  /** A longer number, shifted down to three bytes. */
  lemma LongMantissa(n: nat, d: nat)
    requires d > 0 && 0x1_0000 * d <= n < 0x100_0000 * d
    ensures 0x1_0000 <= n / d < 0x100_0000
  {
    FloorBounds(n, d);
    if n / d < 0x1_0000 {
      MulLe(n / d + 1, 0x1_0000, d);
    }
    if n / d >= 0x100_0000 {
      MulLe(0x100_0000, n / d, d);
    }
  }

  /** The mantissa fits in three bytes and its leading byte is not zero. */
  lemma MantissaBounds(n: nat)
    requires n > 0
    ensures 0x1_0000 <= Mantissa(n) < 0x100_0000
  {
    var e := ByteLength(n);
    ByteLengthBounds(n);
    SmallPowers();
    hide Pow256, ByteLength;
    if e <= 3 {
      Pow256Adds(e - 1, 3 - e);
      Pow256Adds(e, 3 - e);
      ShortMantissa(n, e, Pow256(3 - e), Pow256(e - 1), Pow256(e));
    } else {
      Pow256Adds(2, e - 3);
      Pow256Adds(3, e - 3);
      LongMantissa(n, Pow256(e - 3));
    }
  }

  /** What unpacking a packed mantissa gives. */
  lemma Unpack(e: nat, mantissa: nat)
    requires mantissa < MANTISSAS
    ensures CompactToBig(e * 0x100_0000 + mantissa) ==
      if e <= 3 then mantissa / Pow256(3 - e) else mantissa * Pow256(e - 3)
  {
    var c := e * 0x100_0000 + mantissa;
    FloorIs(c, 0x100_0000, e);
    FloorIs(c, SIGN_BIT, 2 * e);
    assert c % MANTISSAS == mantissa;
  }

  /** With the sign bit it is the same below zero. */
  lemma UnpackNegative(e: nat, mantissa: nat)
    requires mantissa < MANTISSAS
    ensures CompactToBig(e * 0x100_0000 + SIGN_BIT + mantissa) ==
      -(if e <= 3 then mantissa / Pow256(3 - e) else mantissa * Pow256(e - 3))
  {
    hide Pow256;
    var c := e * 0x100_0000 + SIGN_BIT + mantissa;
    FloorIs(c, 0x100_0000, e);
    FloorIs(c, SIGN_BIT, 2 * e + 1);
    Remainder(c, SIGN_BIT, 2 * e + 1);
  }

  lemma Remainder(a: int, d: int, q: int)
    requires d > 0 && a / d == q
    ensures a % d == a - q * d
  {
  }

  /** A target is near `x`, from above. */
  ghost predicate Near(x: int, n: nat) {
    0 <= x <= n && (n - x) * 0x8000 < n
  }

  /** Packing rounds a target down, by less than one part in 2^15. */
  lemma RoundsDown(n: nat)
    requires n > 0
    ensures Near(CompactToBig(BigToCompact(n)), n)
  {
    hide CompactToBig, BigToCompact, Mantissa, ByteLength, Pow256, Near;
    MantissaBounds(n);
    ByteLengthBounds(n);
    Packed(n);
    if Mantissa(n) < SIGN_BIT {
      Unpack(ByteLength(n), Mantissa(n));
      UnpackPlain(n);
    } else {
      HalfMantissa(Mantissa(n));
      Unpack(ByteLength(n) + 1, Mantissa(n) / 256);
      UnpackNormalized(n);
    }
  }

  lemma Packed(n: nat)
    requires n > 0
    ensures BigToCompact(n) ==
      if Mantissa(n) < SIGN_BIT then ByteLength(n) * 0x100_0000 + Mantissa(n)
      else (ByteLength(n) + 1) * 0x100_0000 + Mantissa(n) / 256
  {
    hide Mantissa, ByteLength;
  }

  lemma HalfMantissa(m: nat)
    requires SIGN_BIT <= m < 0x100_0000
    ensures m / 256 < MANTISSAS
  {
    FloorBounds(m, 256);
  }

  lemma UnpackPlain(n: nat)
    requires n > 0 && 0x8000 <= Mantissa(n)
    ensures var e := ByteLength(n);
            Near(if e <= 3 then Mantissa(n) / Pow256(3 - e) else Mantissa(n) * Pow256(e - 3), n)
  {
    var e := ByteLength(n);
    if e <= 3 {
      DivExact(n, Pow256(3 - e));
    } else {
      ShiftRounds(n, Pow256(e - 3), Mantissa(n));
    }
  }

  lemma UnpackNormalized(n: nat)
    requires n > 0 && ByteLength(n) > 0 && SIGN_BIT <= Mantissa(n)
    ensures var e := ByteLength(n) + 1;
            var m := Mantissa(n) / 256;
            Near(if e <= 3 then m / Pow256(3 - e) else m * Pow256(e - 3), n)
  {
    hide Near;
    FloorBounds(Mantissa(n), 256);
    if ByteLength(n) < 3 {
      NormalizedShort(n);
    } else {
      NormalizedLong(n);
    }
  }

  lemma NormalizedShort(n: nat)
    requires n > 0 && 0 < ByteLength(n) < 3
    ensures Near(Mantissa(n) / 256 / Pow256(3 - (ByteLength(n) + 1)), n)
  {
    SmallShift(n, ByteLength(n));
    hide Pow256, ByteLength;
  }

  lemma NormalizedLong(n: nat)
    requires n > 0 && ByteLength(n) >= 3 && SIGN_BIT <= Mantissa(n)
    ensures Near(Mantissa(n) / 256 * Pow256(ByteLength(n) - 2), n)
  {
    var e := ByteLength(n);
    hide ByteLength;
    LongMantissaIs(n);
    Pow256Step(e - 3);
    hide Pow256, Mantissa;
    HalvedTwice(n, Pow256(e - 3), Pow256(e - 2), Mantissa(n));
  }

  lemma LongMantissaIs(n: nat)
    requires ByteLength(n) >= 3
    ensures Pow256(ByteLength(n) - 3) > 0 && Mantissa(n) == n / Pow256(ByteLength(n) - 3)
  {
    SmallPowers();
    hide ByteLength;
  }

  lemma HalvedTwice(n: nat, p: nat, p': nat, m: nat)
    requires p > 0 && p' == 256 * p && m == n / p && m >= SIGN_BIT
    ensures Near(m / 256 * p', n)
  {
    DivTwice(n, p, 256);
    assert p * 256 == p';
    FloorBounds(m, 256);
    ShiftRounds(n, p', m / 256);
  }

  /** Dropping the low part of a number with a mantissa of at least 2^15. */
  lemma ShiftRounds(n: nat, d: nat, m: nat)
    requires d > 0 && m == n / d && m >= 0x8000
    ensures 0 <= m * d <= n && (n - m * d) * 0x8000 < n
  {
    FloorBounds(n, d);
    MulLe(0x8000, m, d);
    MulLe(0, m, d);
  }

  /** Short numbers lose nothing. */
  lemma SmallShift(n: nat, e: nat)
    requires 0 < e < 3 && e == ByteLength(n)
    ensures n * Pow256(3 - e) / 256 / Pow256(3 - (e + 1)) == n
  {
    Pow256Step(2 - e);
    assert n * Pow256(3 - e) == (n * Pow256(2 - e)) * 256;
    DivExact(n * Pow256(2 - e), 256);
    DivExact(n, Pow256(2 - e));
  }

  /** The work of a difficulty: none for a target that is not positive. */
  function CalcWork(bits: nat): nat {
    var target := CompactToBig(bits);
    if target <= 0 then 0 else Pow2(256) / (target + 1)
  }

  /** For a positive target the work is how often its successor fits into 2^256; for any
      other there is none. */
  lemma CalcWorkExactly(bits: nat, work: nat)
    ensures CompactToBig(bits) <= 0 ==> CalcWork(bits) == 0
    ensures CompactToBig(bits) > 0 ==>
              (CalcWork(bits) == work <==>
                 work * (CompactToBig(bits) + 1) <= Pow2(256) < work * (CompactToBig(bits) + 1) + CompactToBig(bits) + 1)
  {
    hide Pow2, CompactToBig;
    if CompactToBig(bits) > 0 {
      QuotientIs(Pow2(256), CompactToBig(bits) + 1, work);
    }
  }

  lemma QuotientIs(a: int, d: int, q: int)
    requires d > 0
    ensures a / d == q <==> q * d <= a < q * d + d
  {
    FloorBounds(a, d);
    if q * d <= a < q * d + d {
      FloorIs(a, d, q);
    }
  }

  /** A block carries work exactly if its target is positive and below 2^256. */
  lemma CalcWorkPositive(bits: nat)
    ensures CalcWork(bits) > 0 <==> 0 < CompactToBig(bits) < Pow2(256)
  {
    var target := CompactToBig(bits);
    hide Pow2, CompactToBig;
    if target > 0 {
      if target < Pow2(256) {
        DivLe(target + 1, Pow2(256), target + 1);
        DivExact(1, target + 1);
      } else {
        FloorIs(Pow2(256), target + 1, 0);
      }
    }
  }

  /** A lower target never means less work. */
  lemma HarderIsMoreWork(bits: nat, bits': nat)
    requires 0 < CompactToBig(bits) <= CompactToBig(bits')
    ensures CalcWork(bits) >= CalcWork(bits')
  {
    hide Pow2, CompactToBig;
    QuotientFalls(Pow2(256), CompactToBig(bits) + 1, CompactToBig(bits') + 1);
  }

  lemma QuotientFalls(a: int, d: int, d': int)
    requires a >= 0 && 0 < d <= d'
    ensures a / d >= a / d'
  {
    var q := a / d';
    FloorBounds(a, d');
    FloorBounds(a, d);
    MulLe(d, d', q);
    if a / d < q {
      MulLe(a / d + 1, q, d);
    }
  }
}

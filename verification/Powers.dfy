/** Powers of two, and division facts the difficulty code rests on. */
module Powers {

  function Pow2(n: nat): (p: nat)
    ensures p > 0
  {
    if n == 0 then 1 else 2 * Pow2(n - 1)
  }

  lemma {:induction false} Pow2Adds(m: nat, n: nat)
    ensures Pow2(m + n) == Pow2(m) * Pow2(n)
  {
    if n > 0 {
      Pow2Adds(m, n - 1);
      assert m + n - 1 == m + (n - 1);
    }
  }

  /** `q` is the floor of a quotient exactly if it is squeezed like this. */
  lemma FloorIs(a: int, d: int, q: int)
    requires d > 0 && q * d <= a < q * d + d
    ensures a / d == q
  {
    var r := a / d;
    assert r * d <= a < r * d + d;
    if r < q {
      MulLe(r + 1, q, d);
    } else if q < r {
      MulLe(q + 1, r, d);
    }
  }

  lemma FloorBounds(a: int, d: int)
    requires d > 0
    ensures (a / d) * d <= a < (a / d) * d + d
  {
  }

  lemma MulLe(x: int, y: int, d: int)
    requires x <= y && d >= 0
    ensures x * d <= y * d
  {
  }

  lemma DivLe(a: int, b: int, d: int)
    requires a <= b && d > 0
    ensures a / d <= b / d
  {
    FloorBounds(a, d);
    FloorBounds(b, d);
    if a / d > b / d {
      MulLe(b / d + 1, a / d, d);
    }
  }

  /** Dividing twice is dividing by the product. */
  lemma DivTwice(a: int, p: int, t: int)
    requires p > 0 && t > 0
    ensures p * t > 0 && (a / p) / t == a / (p * t)
  {
    MulPositive(p, t);
    var x := a / p;
    var q := x / t;
    FloorBounds(a, p);
    FloorBounds(x, t);
    MulLe(q * t, x, p);
    MulLe(x + 1, q * t + t, p);
    assert q * (p * t) == (q * t) * p;
    assert q * (p * t) + p * t == (q * t + t) * p;
    FloorIs(a, p * t, q);
  }

  lemma MulPositive(p: int, t: int)
    requires p > 0 && t > 0
    ensures p * t > 0
  {
  }

  lemma DivExact(q: int, d: int)
    requires d > 0
    ensures (q * d) / d == q
  {
    FloorIs(q * d, d, q);
  }
}

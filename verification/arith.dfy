/** Arithmetic facts the bit-level decoding needs: powers of two, and how
    multiplication and division by positive numbers behave. Shifts and masks
    of the sources are written with these: `x >> k` is `x / Pow2(k)` and
    `x & (Pow2(k) - 1)` is `x % Pow2(k)` for non-negative `x`. */
module Arith {

  /** `2^k`. */
  function Pow2(k: nat): (r: int)
    ensures r >= 1
  {
    if k == 0 then 1 else 2 * Pow2(k - 1)
  }

  /** `2^(a + b) == 2^a * 2^b`. */
  lemma {:induction false} Pow2Add(a: nat, b: nat)
    ensures Pow2(a + b) == Pow2(a) * Pow2(b)
  {
    if a > 0 {
      Pow2Add(a - 1, b);
      assert Pow2(a + b) == 2 * Pow2(a - 1 + b);
    }
  }

  /** The powers of two the Device formats use. */
  lemma Pow2Values()
    ensures Pow2(0) == 1 && Pow2(1) == 2 && Pow2(2) == 4 && Pow2(3) == 8 && Pow2(4) == 16
    ensures Pow2(6) == 64 && Pow2(7) == 128
    ensures Pow2(8) == 0x100 && Pow2(12) == 0x1000 && Pow2(14) == 0x4000 && Pow2(16) == 0x1_0000
  {
    assert Pow2(4) == 16;
    assert Pow2(7) == 128;
    assert Pow2(8) == 0x100 by { Pow2Add(4, 4); }
    assert Pow2(12) == 0x1000 by { Pow2Add(8, 4); }
    assert Pow2(14) == 0x4000 by { Pow2Add(12, 2); }
    assert Pow2(16) == 0x1_0000 by { Pow2Add(8, 8); }
  }

  /** `a * b <= a * c` when `b <= c` and `a` is not negative. */
  lemma {:induction false} MulMono(a: nat, b: int, c: int)
    requires b <= c
    ensures a * b <= a * c
  {
    if a > 0 {
      MulMono(a - 1, b, c);
      assert a * b == (a - 1) * b + b;
      assert a * c == (a - 1) * c + c;
    }
  }

  /** A number below `P` followed by a digit below `W` is below `P * W`. */
  lemma DigitAppendBound(a: int, P: int, W: int, c: int)
    requires 0 <= a < P && 0 <= c < W
    ensures 0 <= a * W + c < P * W
  {
    MulMono(W, 0, a);
    MulMono(W, a, P - 1);
    assert W * (P - 1) == W * P - W;
  }

  /** Dividing by a positive number does not increase a natural number. */
  lemma DivLe(x: nat, d: int)
    requires d >= 1
    ensures 0 <= x / d <= x
  {
    var q, r := x / d, x % d;
    assert x == d * q + r && 0 <= r < d;
    if q < 0 {
      MulMono(d, q, -1);
    } else if q > x {
      MulMono(d, x + 1, q);
      MulMono(x + 1, 1, d);
    }
  }

  /** `a * (b + 1) == a * b + a`. */
  lemma MulSucc(a: int, b: int)
    ensures a * (b + 1) == a * b + a
  {
  }

  /** Division with remainder is unique. */
  lemma DivUnique(x: int, m: int, q: int, r: int)
    requires m > 0 && x == q * m + r && 0 <= r < m
    ensures x / m == q && x % m == r
  {
    var q0, r0 := x / m, x % m;
    assert q0 * m + r0 == q * m + r;
    if q > q0 {
      MulMono(m, q0 + 1, q);
    } else if q < q0 {
      MulMono(m, q + 1, q0);
    }
  }

  /** Dividing by `W * D` is dividing by `W`, then by `D`. */
  lemma DivDiv(x: nat, W: int, D: int)
    requires W > 0 && D > 0
    ensures x / (W * D) == (x / W) / D
  {
    var q, r := x / W, x % W;
    var q2, r2 := q / D, q % D;
    assert x == q * W + r;
    assert q == q2 * D + r2;
    assert x == q2 * (W * D) + (r2 * W + r) by {
      assert q * W == (q2 * D + r2) * W == q2 * (W * D) + r2 * W;
    }
    assert r2 * W + r < W * D by {
      MulMono(W, r2, D - 1);
      assert W * (D - 1) == W * D - W;
    }
    DivUnique(x, W * D, q2, r2 * W + r);
  }
}

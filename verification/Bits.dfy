/** Bit operations of unsigned integers, as arithmetic. */
module Bits {

  function Pow2(k: nat): (r: nat)
    ensures r > 0
  {
    if k == 0 then 1 else 2 * Pow2(k - 1)
  }

  /** `a << k`, without a width */
  function Shl(a: nat, k: nat): nat {
    if k == 0 then a else 2 * Shl(a, k - 1)
  }

  /** `a >> k` */
  function Shr(a: nat, k: nat): nat {
    if k == 0 then a else Shr(a / 2, k - 1)
  }

  /** `a & b` */
  function And(a: nat, b: nat): nat {
    if a == 0 || b == 0 then 0 else (if a % 2 == 1 && b % 2 == 1 then 1 else 0) + 2 * And(a / 2, b / 2)
  }

  /** `a | b` */
  function Or(a: nat, b: nat): nat {
    if a == 0 then b else if b == 0 then a
    else (if a % 2 == 1 || b % 2 == 1 then 1 else 0) + 2 * Or(a / 2, b / 2)
  }

  lemma {:induction false} ProductAtLeast(d: nat, m: nat)
    requires d >= 1
    ensures d * m >= m
  {
    if d > 1 {
      ProductAtLeast(d - 1, m);
      assert d * m == (d - 1) * m + m;
    }
  }

  lemma {:induction false} ProductOrder(i: nat, j: nat, w: nat)
    requires i <= j
    ensures i * w <= j * w && w * i <= w * j
    decreases j
  {
    if i < j {
      ProductOrder(i, j - 1, w);
      assert j * w == (j - 1) * w + w;
    }
  }

  lemma ModUnique(a: nat, m: nat, q: nat, r: nat)
    requires m > 0 && a == q * m + r && r < m
    ensures a / m == q && a % m == r
  {
    var p, s := a / m, a % m;
    assert a == p * m + s;
    assert (p - q) * m == p * m - q * m && (q - p) * m == q * m - p * m;
    if p > q {
      ProductAtLeast(p - q, m);
    } else if p < q {
      ProductAtLeast(q - p, m);
    }
  }

  lemma HalfDivMod(a: nat, m: nat)
    requires m > 0
    ensures a % (2 * m) == 2 * (a / 2 % m) + a % 2
    ensures a / (2 * m) == a / 2 / m
  {
    var q, r := a / 2 / m, a / 2 % m;
    assert a / 2 == q * m + r;
    assert a == 2 * (a / 2) + a % 2;
    assert q * (2 * m) == 2 * (q * m);
    ModUnique(a, 2 * m, q, 2 * r + a % 2);
  }

  lemma {:induction false} ShlIsTimes(a: nat, k: nat)
    ensures Shl(a, k) == a * Pow2(k)
  {
    if k > 0 {
      ShlIsTimes(a, k - 1);
      assert a * (2 * Pow2(k - 1)) == 2 * (a * Pow2(k - 1));
    } else {
      assert a * 1 == a;
    }
  }

  lemma {:induction false} ShrIsDiv(a: nat, k: nat)
    ensures Shr(a, k) == a / Pow2(k)
  {
    if k > 0 {
      ShrIsDiv(a / 2, k - 1);
      HalfDivMod(a, Pow2(k - 1));
    }
  }

  lemma AndOdd(a: nat, h: nat)
    ensures And(a, 2 * h + 1) == 2 * And(a / 2, h) + a % 2
  {
    assert (2 * h + 1) / 2 == h && (2 * h + 1) % 2 == 1;
  }

  lemma Pow2More(k: nat)
    ensures Pow2(0) == 1 && Pow2(k + 1) == 2 * Pow2(k)
  {
  }

  lemma AndNothing(a: nat)
    ensures And(a, 0) == 0 && a % 1 == 0
  {
  }

  /** Masking with all ones below bit `k` is the remainder modulo 2^k. */
  lemma {:induction false} AndLowMask(a: nat, k: nat)
    ensures And(a, Pow2(k) - 1) == a % Pow2(k)
  {
    hide *;
    if k == 0 {
      Pow2More(0);
      AndNothing(a);
    } else {
      AndLowMask(a / 2, k - 1);
      Pow2More(k - 1);
      HalfDivMod(a, Pow2(k - 1));
      AndOdd(a, Pow2(k - 1) - 1);
      assert Pow2(k) - 1 == 2 * (Pow2(k - 1) - 1) + 1;
    }
  }

  /** Masking with a shifted mask and shifting back sees the bits above the shift. */
  lemma {:induction false} AndShifted(a: nat, m: nat, i: nat)
    ensures Shr(And(a, Shl(m, i)), i) == And(Shr(a, i), m)
  {
    if i > 0 {
      AndShifted(a / 2, m, i - 1);
      AndDouble(a, Shl(m, i - 1));
    }
  }

  lemma AndDouble(a: nat, h: nat)
    ensures And(a, 2 * h) == 2 * And(a / 2, h)
  {
    if a > 0 && h > 0 {
      assert (2 * h) % 2 == 0 && 2 * h / 2 == h;
    }
  }

  /** Setting a bit above all set bits adds it. */
  lemma {:induction false} OrAbove(a: nat, k: nat)
    requires a < Pow2(k)
    ensures Or(a, Pow2(k)) == a + Pow2(k)
  {
    if k > 0 && a > 0 {
      OrAbove(a / 2, k - 1);
      assert Pow2(k) / 2 == Pow2(k - 1) && Pow2(k) % 2 == 0;
    }
  }
}

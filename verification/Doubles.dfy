/** Unsigned numbers as `double`: 53 significant bits, rounded to the nearest, and to the even one of two. */
module Doubles {
  import opened Bits

  /** The distance of the doubles around `v`. */
  function Unit(v: nat): (u: nat)
    ensures u > 0
  {
    if v < 0x20_0000_0000_0000 then 1 else 2 * Unit(v / 2)
  }

  /** `n` units; the proofs use it by its laws only. */
  function Times(n: nat, u: nat): nat {
    n * u
  }

  function ToDouble(v: nat): nat {
    var u := Unit(v);
    var q, r := v / u, v % u;
    if 2 * r > u || (2 * r == u && q % 2 == 1) then Times(q + 1, u) else Times(q, u)
  }

  lemma TimesOrder(i: nat, j: nat, u: nat)
    ensures i <= j ==> Times(i, u) <= Times(j, u)
    ensures i < j ==> Times(i, u) + u <= Times(j, u)
    ensures Times(i + 1, u) == Times(i, u) + u
  {
    assert (i + 1) * u == i * u + u;
    if i < j {
      ProductOrder(i + 1, j, u);
    }
  }

  lemma TimesIs(n: nat, u: nat)
    ensures Times(n, u) == n * u && Times(n, 1) == n && Times(n, 2 * u) == 2 * Times(n, u)
  {
    assert n * (2 * u) == 2 * (n * u);
  }

  lemma UnitUnfold(v: nat)
    ensures Unit(v) == if v < 0x20_0000_0000_0000 then 1 else 2 * Unit(v / 2)
  {
  }

  /** The significant bits fit: `v` is less than 2^53 units, and at least 2^52 if the unit is more than 1. */
  lemma {:induction false} UnitBounds(v: nat)
    ensures v < Times(0x20_0000_0000_0000, Unit(v))
    ensures Unit(v) > 1 ==> v >= Times(0x10_0000_0000_0000, Unit(v))
  {
    hide Unit;
    UnitUnfold(v);
    if v >= 0x20_0000_0000_0000 {
      UnitBounds(v / 2);
    }
  }

  lemma {:induction false} UnitsGrow(a: nat, b: nat)
    requires a <= b
    ensures Unit(a) == Unit(b) || 2 * Unit(a) <= Unit(b)
    decreases b
  {
    hide Unit;
    UnitUnfold(a);
    UnitUnfold(b);
    if a >= 0x20_0000_0000_0000 {
      UnitsGrow(a / 2, b / 2);
    }
  }

  /** A number as units and a rest, and how it is rounded. */
  lemma Parts(v: nat) returns (q: nat, r: nat)
    ensures v == Times(q, Unit(v)) + r && r < Unit(v)
    ensures ToDouble(v) ==
            if 2 * r > Unit(v) || (2 * r == Unit(v) && q % 2 == 1) then Times(q, Unit(v)) + Unit(v) else Times(q, Unit(v))
  {
    hide Unit;
    q, r := v / Unit(v), v % Unit(v);
    TimesOrder(q, q, Unit(v));
  }

  lemma PartsAre(v: nat, q: nat, r: nat, p: nat, s: nat, u: nat)
    requires v == Times(q, u) + r == Times(p, u) + s && r < u && s < u
    ensures q == p && r == s
  {
    hide Times;
    TimesOrder(q, p, u);
    TimesOrder(p, q, u);
  }

  /** Rounding stays between the multiples of the unit around `v`. */
  lemma RoundedWithin(v: nat, n: nat)
    ensures v <= Times(n, Unit(v)) ==> ToDouble(v) <= Times(n, Unit(v))
    ensures Times(n, Unit(v)) <= v ==> Times(n, Unit(v)) <= ToDouble(v)
  {
    hide *;
    var q, r := Parts(v);
    TimesOrder(q, n, Unit(v));
    TimesOrder(n, q, Unit(v));
  }

  /** A multiple of the unit is a double. */
  lemma Exact(v: nat, n: nat)
    requires v == Times(n, Unit(v))
    ensures ToDouble(v) == v
  {
    hide *;
    RoundedWithin(v, n);
  }

  lemma SmallIsExact(v: nat)
    requires v < 0x20_0000_0000_0000
    ensures ToDouble(v) == v
  {
    hide *;
    UnitUnfold(v);
    TimesIs(v, 1);
    Exact(v, v);
  }

  /** Rounding keeps the order. */
  lemma Monotone(a: nat, b: nat)
    requires a <= b
    ensures ToDouble(a) <= ToDouble(b)
  {
    hide *;
    UnitsGrow(a, b);
    if Unit(a) == Unit(b) {
      var qa, ra := Parts(a);
      var qb, rb := Parts(b);
      TimesOrder(qa, qb, Unit(a));
      TimesOrder(qb, qa, Unit(a));
    } else {
      UnitBounds(a);
      UnitBounds(b);
      RoundedWithin(a, 0x20_0000_0000_0000);
      RoundedWithin(b, 0x10_0000_0000_0000);
      TimesIs(0x20_0000_0000_0000, Unit(a));
      TimesIs(0x10_0000_0000_0000, Unit(b));
    }
  }

  lemma Twice(v: nat)
    ensures ToDouble(2 * v) == 2 * ToDouble(v)
  {
    hide *;
    if 2 * v < 0x20_0000_0000_0000 {
      SmallIsExact(v);
      SmallIsExact(2 * v);
    } else {
      var u := Unit(v);
      UnitUnfold(2 * v);
      var q, r := Parts(v);
      var p, s := Parts(2 * v);
      TimesIs(q, u);
      PartsAre(2 * v, q, 2 * r, p, s, 2 * u);
    }
  }

  /** A larger multiple is a larger double. */
  lemma MultipleGrows(v: nat, n: nat)
    requires v > 0 && n >= 2
    ensures ToDouble(v) < ToDouble(n * v)
  {
    hide *;
    ProductOrder(2, n, v);
    Monotone(2 * v, n * v);
    Twice(v);
    Monotone(1, v);
    SmallIsExact(1);
  }

  lemma {:induction false} UnitOf(v: nat, k: nat)
    requires Times(0x10_0000_0000_0000, Pow2(k)) <= v < Times(0x20_0000_0000_0000, Pow2(k))
    ensures Unit(v) == Pow2(k)
    decreases k
  {
    hide *;
    UnitUnfold(v);
    Pow2More(0);
    TimesIs(0x20_0000_0000_0000, Pow2(k));
    TimesIs(0x10_0000_0000_0000, Pow2(k));
    if k > 0 {
      Pow2More(k - 1);
      TimesIs(0x20_0000_0000_0000, Pow2(k - 1));
      TimesIs(0x10_0000_0000_0000, Pow2(k - 1));
      UnitOf(v / 2, k - 1);
    }
  }

  /** Of the numbers below an even multiple of a unit, those within half a unit of it are rounded to it. */
  lemma RoundsUp(v: nat, t: nat, k: nat)
    requires k >= 1 && v < Times(t, Pow2(k)) && t % 2 == 0 && 0x10_0000_0000_0000 < t <= 0x20_0000_0000_0000
    ensures ToDouble(Times(t, Pow2(k))) == Times(t, Pow2(k))
    ensures ToDouble(v) >= Times(t, Pow2(k)) <==> 2 * (Times(t, Pow2(k)) - v) <= Pow2(k)
  {
    hide *;
    var u := Pow2(k);
    TopIsExact(t, k);
    if v >= Times(0x10_0000_0000_0000, u) {
      TimesOrder(t, 0x20_0000_0000_0000, u);
      UnitOf(v, k);
      var q, r := Parts(v);
      TimesOrder(t, q, u);
      TimesOrder(q + 1, t, u);
      TimesOrder(q, t, u);
    } else {
      FarBelow(v, k);
      TimesOrder(0x10_0000_0000_0000, t, u);
    }
  }

  lemma TopIsExact(t: nat, k: nat)
    requires t % 2 == 0 && 0x10_0000_0000_0000 < t <= 0x20_0000_0000_0000
    ensures ToDouble(Times(t, Pow2(k))) == Times(t, Pow2(k))
  {
    hide *;
    var u := Pow2(k);
    TimesOrder(0x10_0000_0000_0000, t, u);
    if t < 0x20_0000_0000_0000 {
      TimesOrder(t, 0x20_0000_0000_0000, u);
      UnitOf(Times(t, u), k);
      Exact(Times(t, u), t);
    } else {
      Pow2More(k);
      TimesIs(0x10_0000_0000_0000, u);
      TimesIs(0x20_0000_0000_0000, u);
      TimesIs(t, u);
      UnitOf(Times(t, u), k + 1);
      Exact(Times(t, u), 0x10_0000_0000_0000);
    }
  }

  lemma FarBelow(v: nat, k: nat)
    requires v < Times(0x10_0000_0000_0000, Pow2(k)) && k >= 1
    ensures ToDouble(v) <= Times(0x10_0000_0000_0000, Pow2(k))
  {
    hide *;
    var top := Times(0x10_0000_0000_0000, Pow2(k));
    TimesOrder(0x10_0000_0000_0000, 0x20_0000_0000_0000, Pow2(k));
    UnitOf(top, k);
    Exact(top, 0x10_0000_0000_0000);
    Monotone(v, top);
  }
}

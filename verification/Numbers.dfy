/** Numbers as text: `strlen(val, base)`, `itoa` and the conversions of the printing functions. */
module Numbers {
  import opened CStrings
  import Bits
  import D = Doubles

  predicate IsHexDigit(c: char) {
    '0' <= c <= '9' || 'a' <= c <= 'f'
  }

  predicate IsHex(s: string) {
    forall c <- s :: IsHexDigit(c)
  }

  function Digit(d: nat): (c: char)
    requires d < 16
    ensures IsHexDigit(c)
  {
    if d < 10 then '0' + d as char else 'a' + (d - 10) as char
  }

  /** The digits of a number, most significant first. */
  function Digits(n: nat, base: nat): (s: string)
    requires 2 <= base <= 16
    ensures |s| >= 1
    decreases n
  {
    if n < base then [Digit(n)] else Digits(n / base, base) + [Digit(n % base)]
  }

  lemma {:induction false} DigitsPlain(n: nat, base: nat)
    requires 2 <= base <= 16
    ensures IsHex(Digits(n, base))
    decreases n
  {
    hide Digit, IsHexDigit;
    DigitsUnfold(n, base);
    if n < base {
      OneDigit(n);
    } else {
      DigitsPlain(n / base, base);
      OneDigit(n % base);
    }
  }

  lemma OneDigit(d: nat)
    requires d < 16
    ensures IsHexDigit(Digit(d))
  {
  }

  lemma HexPlain(s: string)
    requires IsHex(s)
    ensures '\n' !in s && '%' !in s && NUL !in s
  {
  }

  function Decimal(n: nat): string {
    Digits(n, 10)
  }

  /** `%d` */
  function Signed(v: int): string {
    if v < 0 then "-" + Digits(-v, 10) else Digits(v, 10)
  }

  function Pow(b: nat, e: nat): nat {
    if e == 0 then 1 else b * Pow(b, e - 1)
  }

  lemma {:induction false} TimesGrows(b: nat, x: nat)
    requires b >= 1
    ensures b * x >= x
  {
    if b > 1 {
      TimesGrows(b - 1, x);
      assert b * x == (b - 1) * x + x;
    }
  }

  lemma {:induction false} PowMonotone(b: nat, i: nat, j: nat)
    requires b >= 1 && i <= j
    ensures 1 <= Pow(b, i) <= Pow(b, j)
    decreases j
  {
    hide Pow;
    if j == 0 {
      PowUnfold(b, 0);
    } else {
      PowMonotone(b, if i < j then i else j - 1, j - 1);
      PowUnfold(b, j - 1);
      TimesGrows(b, Pow(b, j - 1));
    }
  }

  lemma DigitsUnfold(n: nat, base: nat)
    requires 2 <= base <= 16
    ensures n < base ==> Digits(n, base) == [Digit(n)]
    ensures n >= base ==> n / base < n && n % base < base && Digits(n, base) == Digits(n / base, base) + [Digit(n % base)]
  {
  }

  lemma PowUnfold(b: nat, e: nat)
    ensures Pow(b, 0) == 1 && Pow(b, 1) == b
    ensures Pow(b, e + 1) == b * Pow(b, e)
  {
    assert Pow(b, 1) == b * Pow(b, 0);
  }

  /** A bound on the quotient is a bound on the number. */
  lemma QuotientBounds(n: nat, base: nat, p: nat)
    requires base > 0
    ensures n / base < p ==> n < base * p
    ensures p <= n / base ==> base * p <= n
  {
    var q := n / base;
    assert n == base * q + n % base;
    if q < p {
      assert base * (q + 1) <= base * p;
      assert base * (q + 1) == base * q + base;
    } else {
      assert base * p <= base * q;
    }
  }

  /** A number has as many digits as the least power of the base above it says. */
  lemma {:induction false} DigitCount(n: nat, base: nat)
    requires 2 <= base <= 16
    ensures n < Pow(base, |Digits(n, base)|)
    ensures |Digits(n, base)| > 1 ==> Pow(base, |Digits(n, base)| - 1) <= n
    decreases n
  {
    hide *;
    DigitsUnfold(n, base);
    PowUnfold(base, 0);
    if n >= base {
      var k := |Digits(n / base, base)|;
      DigitCount(n / base, base);
      PowUnfold(base, k);
      QuotientBounds(n, base, Pow(base, k));
      if k > 1 {
        PowUnfold(base, k - 1);
        QuotientBounds(n, base, Pow(base, k - 1));
      }
    }
  }

  /** `unsigned long` */
  const ULONG := 0x1_0000_0000_0000_0000

  /** What `strlen(val, base)` counts: a digit too many if the number is rounded up to the next power of the base. */
  function Counted(val: nat, base: nat): nat
    requires 2 <= base <= 16
  {
    var n := |Digits(val, base)|;
    if D.ToDouble(val) >= D.ToDouble(Pow(base, n)) then n + 1 else n
  }

  lemma CountedIs(val: nat, base: nat)
    requires 2 <= base <= 16
    ensures var n := |Digits(val, base)|;
            Counted(val, base) == if D.ToDouble(val) >= D.ToDouble(Pow(base, n)) then n + 1 else n
  {
  }

  /** The comparison with a power of the base. */
  lemma Comparison(val: nat, base: nat, len: nat)
    requires 2 <= base <= 16 && 1 <= len <= Counted(val, base)
    ensures D.ToDouble(val) < D.ToDouble(Pow(base, len)) <==> len == Counted(val, base)
  {
    hide *;
    CountedIs(val, base);
    var n := |Digits(val, base)|;
    DigitCount(val, base);
    if len < n {
      PowMonotone(base, len, n - 1);
      D.Monotone(Pow(base, len), val);
    } else if len == n + 1 {
      PowMonotone(base, n, n);
      PowUnfold(base, n);
      D.Monotone(val, Pow(base, n));
      D.MultipleGrows(Pow(base, n), base);
    }
  }

  /** `strlen(val, base)`; the numbers are compared as doubles, and `pow` is taken to be rounded correctly. */
  method StrLenBase(val: nat, base: nat) returns (len: nat)
    requires 2 <= base <= 16 && val < ULONG
    ensures len == Counted(val, base)
  {
    hide *;
    CountedIs(val, base);
    DigitsSome(val, base);
    len := 1;
    while true
      invariant 1 <= len <= Counted(val, base)
      decreases Counted(val, base) - len
    {
      Comparison(val, base, len);
      var p := PowLoop(base, len);
      if D.ToDouble(val) < D.ToDouble(p) {
        return;
      }
      len := len + 1;
    }
  }

  lemma DigitsSome(n: nat, base: nat)
    requires 2 <= base <= 16
    ensures |Digits(n, base)| >= 1
  {
  }

  method PowLoop(b: nat, e: nat) returns (p: nat)
    ensures p == Pow(b, e)
  {
    p := 1;
    for i := 0 to e
      invariant p == Pow(b, i)
    {
      p := b * p;
    }
  }

  predicate Near(v: nat, top: nat, d: nat) {
    top - d <= v < top
  }

  /** The numbers with a digit too many. */
  predicate Overcounted(v: nat, base: nat) {
    if base == 10 then
      || Near(v, 10_000_000_000_000_000, 1) || Near(v, 100_000_000_000_000_000, 8)
      || Near(v, 1_000_000_000_000_000_000, 64) || Near(v, 10_000_000_000_000_000_000, 1024)
    else
      || Near(v, 0x100_0000_0000_0000, 4) || Near(v, 0x1000_0000_0000_0000, 64)
      || Near(v, 0x1_0000_0000_0000_0000, 1024)
  }

  lemma {:induction false} PowPlus(b: nat, i: nat, j: nat)
    ensures Pow(b, i + j) == Pow(b, i) * Pow(b, j)
  {
    hide Pow;
    PowUnfold(b, i);
    if i > 0 {
      PowPlus(b, i - 1, j);
      PowUnfold(b, i - 1);
      PowUnfold(b, i - 1 + j);
      assert b * Pow(b, i - 1) * Pow(b, j) == b * (Pow(b, i - 1) * Pow(b, j));
    }
  }

  lemma PowersOf10()
    ensures Pow(10, 15) == 1_000_000_000_000_000 && Pow(10, 16) == 10_000_000_000_000_000
    ensures Pow(10, 17) == 100_000_000_000_000_000 && Pow(10, 18) == 1_000_000_000_000_000_000
    ensures Pow(10, 19) == 10_000_000_000_000_000_000 && Pow(10, 20) == 100_000_000_000_000_000_000
  {
    hide Pow;
    PowUnfold(10, 1);
    PowUnfold(10, 2);
    PowUnfold(10, 3);
    PowUnfold(10, 4);
    PowPlus(10, 5, 5);
    PowPlus(10, 10, 5);
    PowUnfold(10, 15);
    PowUnfold(10, 16);
    PowUnfold(10, 17);
    PowUnfold(10, 18);
    PowUnfold(10, 19);
  }

  lemma PowersOf16()
    ensures Pow(16, 13) == 0x10_0000_0000_0000 && Pow(16, 14) == 0x100_0000_0000_0000
    ensures Pow(16, 15) == 0x1000_0000_0000_0000 && Pow(16, 16) == 0x1_0000_0000_0000_0000
  {
    hide Pow;
    PowUnfold(16, 1);
    PowUnfold(16, 2);
    PowUnfold(16, 3);
    PowPlus(16, 4, 4);
    PowPlus(16, 8, 4);
    PowUnfold(16, 12);
    PowUnfold(16, 13);
    PowUnfold(16, 14);
    PowUnfold(16, 15);
  }

  lemma Units()
    ensures Bits.Pow2(1) == 2 && Bits.Pow2(3) == 8 && Bits.Pow2(4) == 16 && Bits.Pow2(7) == 128 && Bits.Pow2(11) == 2048
  {
    assert Bits.Pow2(4) == 16;
    assert Bits.Pow2(7) == 128;
  }

  /** Decimal numbers of 64 bits are counted right unless they are rounded up to a power of ten. */
  lemma DecimalCount(v: nat)
    requires v < ULONG
    ensures Counted(v, 10) == |Digits(v, 10)| + if Overcounted(v, 10) then 1 else 0
  {
    hide Digits, Pow, Counted, D.ToDouble, D.Times, Bits.Pow2;
    var n := |Digits(v, 10)|;
    CountedIs(v, 10);
    DigitCount(v, 10);
    PowersOf10();
    Units();
    if n <= 15 {
      PowMonotone(10, n, 15);
      D.SmallIsExact(v);
      D.SmallIsExact(Pow(10, n));
    } else {
      PowMonotone(10, 15, n - 1);
      match n {
        case 16 => RoundedUp(v, 5_000_000_000_000_000, 1);
        case 17 => RoundedUp(v, 6_250_000_000_000_000, 4);
        case 18 => RoundedUp(v, 7_812_500_000_000_000, 7);
        case 19 => RoundedUp(v, 4_882_812_500_000_000, 11);
        case _ =>
          PowMonotone(10, 19, n - 1);
          PowMonotone(10, 20, n);
          D.Monotone(v, ULONG);
          D.MultipleGrows(ULONG, 2);
          D.Monotone(2 * ULONG, Pow(10, n));
      }
    }
  }

  /** Hexadecimal numbers of 64 bits, likewise. */
  lemma HexCount(v: nat)
    requires v < ULONG
    ensures Counted(v, 16) == |Digits(v, 16)| + if Overcounted(v, 16) then 1 else 0
  {
    hide Digits, Pow, Counted, D.ToDouble, D.Times, Bits.Pow2;
    var n := |Digits(v, 16)|;
    CountedIs(v, 16);
    DigitCount(v, 16);
    PowersOf16();
    Units();
    if n <= 13 {
      PowMonotone(16, n, 13);
      D.SmallIsExact(v);
      D.SmallIsExact(Pow(16, n));
    } else {
      PowMonotone(16, 13, n - 1);
      if n > 16 {
        PowMonotone(16, 16, n - 1);
        assert false;
      }
      match n {
        case 14 => RoundedUp(v, 0x20_0000_0000_0000, 3);
        case 15 => RoundedUp(v, 0x20_0000_0000_0000, 7);
        case 16 => RoundedUp(v, 0x20_0000_0000_0000, 11);
      }
    }
  }

  lemma RoundedUp(v: nat, t: nat, k: nat)
    requires k >= 1 && v < t * Bits.Pow2(k) && t % 2 == 0 && 0x10_0000_0000_0000 < t <= 0x20_0000_0000_0000
    ensures D.ToDouble(v) >= D.ToDouble(t * Bits.Pow2(k)) <==> 2 * (t * Bits.Pow2(k) - v) <= Bits.Pow2(k)
  {
    hide *;
    D.TimesIs(t, Bits.Pow2(k));
    D.RoundsUp(v, t, k);
  }

  /** `itoa`: the digits, with the sign asked for, in the caller's buffer or a larger new one. */
  method Itoa(v: nat, buf: array<char>, base: nat, neg: bool) returns (s: array<char>)
    requires (base == 10 || base == 16) && v < ULONG
    modifies buf
    ensures var n := Counted(v, base) + 1 + (if neg then 1 else 0);
            if n <= buf.Length then s == buf else fresh(s) && s.Length == buf.Length + n
    ensures s != buf ==> buf[..] == old(buf[..])
    ensures NUL in s[..] && Str(s[..]) == (if neg then "-" else "") + Digits(v, base)
  {
    hide Digits, Counted, IsHex, Str, StrLen;
    CountedIs(v, base);
    DigitsSome(v, base);
    var n := StrLenBase(v, base);
    var len := n + 1 + (if neg then 1 else 0);
    s := buf;
    if buf.Length < len {
      s := new char[buf.Length + len];
    }
    ghost var text := (if neg then "-" else "") + Digits(v, base);
    Sprintf(s, (if neg then "-" else "") + Digits(v, base));
    DigitsPlain(v, base);
    HexPlain(Digits(v, base));
    HoldsText(s[..], text);
  }

  /** `sprintf` of a text that fits. */
  method Sprintf(s: array<char>, text: string)
    requires |text| < s.Length
    modifies s
    ensures s[|text|] == NUL && forall k | 0 <= k < |text| :: s[k] == text[k]
  {
    forall k | 0 <= k < |text| {
      s[k] := text[k];
    }
    s[|text|] := NUL;
  }

  /** The value of a digit, as the hexadecimal readers compute it. */
  function DigitValue(c: char): int {
    if c >= 'a' then c as int - 87 else c as int - 48
  }

  lemma DigitRoundTrip(d: nat)
    requires d < 16
    ensures DigitValue(Digit(d)) == d
  {
  }

  function Value(s: string, base: nat): int {
    if s == "" then 0 else Value(s[..|s| - 1], base) * base + DigitValue(s[|s| - 1])
  }

  /** Reading back what was printed gives the number. */
  lemma {:induction false} ValueOfDigits(n: nat, base: nat)
    requires 2 <= base <= 16
    ensures Value(Digits(n, base), base) == n
    decreases n
  {
    hide *;
    DigitsUnfold(n, base);
    if n < base {
      DigitRoundTrip(n);
      ValueUnfold("", Digit(n), base);
      assert "" + [Digit(n)] == [Digit(n)];
    } else {
      ValueOfDigits(n / base, base);
      DigitRoundTrip(n % base);
      ValueUnfold(Digits(n / base, base), Digit(n % base), base);
    }
  }

  /** What `%d` and `%u` print is read back: a sign for negative numbers, and then their digits. */
  lemma SignedReads(v: int)
    ensures v >= 0 ==> IsHex(Signed(v)) && Value(Signed(v), 10) == v
    ensures v < 0 ==> Signed(v)[0] == '-' && IsHex(Signed(v)[1..]) && Value(Signed(v)[1..], 10) == -v
  {
    hide Digits, Value, IsHex;
    var n := if v < 0 then -v else v;
    DigitsPlain(n, 10);
    ValueOfDigits(n, 10);
    assert v < 0 ==> Signed(v)[1..] == Digits(n, 10);
  }

  lemma {:induction false} ZerosInFront(n: nat, s: string)
    ensures Value(seq(n, _ => '0') + s, 16) == Value(s, 16)
    decreases n + |s|
  {
    hide Value;
    var t := seq(n, _ => '0') + s;
    if s != "" {
      var m := |s| - 1;
      ZerosInFront(n, s[..m]);
      assert t == (seq(n, _ => '0') + s[..m]) + [s[m]] && s == s[..m] + [s[m]];
      ValueUnfold(seq(n, _ => '0') + s[..m], s[m], 16);
      ValueUnfold(s[..m], s[m], 16);
    } else if n > 0 {
      ZerosInFront(n - 1, "");
      assert t == (seq(n - 1, _ => '0') + "") + ['0'] && DigitValue('0') == 0;
      ValueUnfold(seq(n - 1, _ => '0') + "", '0', 16);
      ValueUnfold("", '0', 16);
    } else {
      assert t == "";
    }
  }

  /** An address of 64 bits takes 18 characters, from which it is read back; all but zero have the prefix. */
  lemma AddressReads(a: nat)
    requires a < ULONG
    ensures |HexAddress(a)| == 18 && Value(HexAddress(a)[2..], 16) == a
    ensures HexAddress(a)[..2] == if a == 0 then "00" else "0x"
  {
    hide Digits, Value;
    var digits := Digits(if a == 0 then 0 else a, 16);
    ValueOfDigits(a, 16);
    DigitCount(a, 16);
    PowersOf16();
    if |digits| > 16 {
      PowMonotone(16, 16, |digits| - 1);
      assert false;
    }
    ZerosInFront(16 - |digits|, digits);
    if a == 0 {
      DigitsUnfold(0, 16);
      assert HexAddress(0) == seq(17, _ => '0') + "0" && HexAddress(0)[2..] == seq(15, _ => '0') + digits;
    } else {
      assert HexAddress(a)[2..] == Pad(digits, 16, '0');
      assert Pad(digits, 16, '0') == seq(16 - |digits|, _ => '0') + digits;
    }
  }

  lemma ValueUnfold(s: string, c: char, base: nat)
    ensures Value(s + [c], base) == Value(s, base) * base + DigitValue(c)
    ensures Value("", base) == 0
  {
    assert (s + [c])[..|s + [c]| - 1] == s;
  }

  /** Left padding to a field width. */
  function Pad(s: string, width: nat, c: char): (r: string)
    ensures |r| >= |s| && |r| >= width
    ensures c != '\n' && '\n' !in s ==> '\n' !in r
  {
    if |s| >= width then s else seq(width - |s|, _ => c) + s
  }

  /** `%#018lx`: zero has no prefix. */
  function HexAddress(a: nat): string {
    if a == 0 then Pad("0", 18, '0') else "0x" + Pad(Digits(a, 16), 16, '0')
  }
}

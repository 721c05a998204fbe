/**
 * Registers of peripherals: byte order and bit fields.
 * A register is a stretch of the range's memory content, which gdb delivers as pairs of hexadecimal digits.
 */
module Registers {
  import opened Options
  import opened Bits
  import N = Numbers

  // ----- byte order -----

  /** Where `strswap2` finds the character for position `i`: the pairs in reverse order, each pair kept. */
  function SwapSource(n: nat, i: nat): int {
    n - 2 - i + 2 * (i % 2)
  }

  function Swapped(s: string): (r: string)
    requires |s| % 2 == 0
    ensures |r| == |s| && forall i | 0 <= i < |s| :: 0 <= SwapSource(|s|, i) < |s| && r[i] == s[SwapSource(|s|, i)]
  {
    seq(|s|, i requires 0 <= i < |s| => s[SwapSource(|s|, i)])
  }

  /** Swapping twice changes nothing. */
  lemma SwapTwice(s: string)
    requires |s| % 2 == 0
    ensures Swapped(Swapped(s)) == s
  {
    var n, r := |s|, Swapped(s);
    forall i | 0 <= i < n
      ensures Swapped(r)[i] == s[i]
    {
      assert SwapSource(n, SwapSource(n, i)) == i;
    }
  }

  /** The loop of `strswap2`, two characters at a time. */
  method FillSwapped(a: array<char>, from: nat, t: array<char>, ghost s: string)
    requires |s| == t.Length && |s| % 2 == 0 && from + |s| <= a.Length && a != t
    requires a[from..from + |s|] == s
    modifies t
    ensures t[..] == Swapped(s)
  {
    hide Swapped;
    var i := 0;
    while i < t.Length
      invariant 0 <= i <= t.Length && i % 2 == 0
      invariant forall k | 0 <= k < i :: t[k] == Swapped(s)[k]
    {
      SwappedPair(s, i);
      t[i] := a[from + t.Length - i - 2];
      t[i + 1] := a[from + t.Length - i - 1];
      assert a[from..from + |s|][t.Length - i - 2] == t[i] && a[from..from + |s|][t.Length - i - 1] == t[i + 1];
      i := i + 2;
    }
  }

  lemma SwappedPair(s: string, i: nat)
    requires |s| % 2 == 0 && i + 1 < |s| && i % 2 == 0
    ensures Swapped(s)[i] == s[|s| - i - 2] && Swapped(s)[i + 1] == s[|s| - i - 1]
  {
  }

  /** The `memcpy` back. */
  method CopyBack(a: array<char>, from: nat, t: array<char>)
    requires from + t.Length <= a.Length && a != t
    modifies a
    ensures a[..] == old(a[..from]) + t[..] + old(a[from + t.Length..])
  {
    forall k | 0 <= k < t.Length {
      a[from + k] := t[k];
    }
  }

  /**
   * `strswap2` on `len` characters from `from`, through a temporary buffer. With an odd length it reads in front of the
   * characters and writes behind the temporary buffer.
   */
  method StrSwap2(a: array<char>, from: nat, len: nat) returns (outside: bool)
    requires from + len <= a.Length
    modifies a
    ensures outside <==> len % 2 == 1
    ensures a[..] == if outside then old(a[..])
                     else old(a[..from]) + Swapped(old(a[from..from + len])) + old(a[from + len..])
  {
    if len % 2 == 1 {
      return true;
    }
    var t := new char[len];
    FillSwapped(a, from, t, a[from..from + len]);
    CopyBack(a, from, t);
    return false;
  }

  datatype RegOpt = RegOpt(big: bool, little: bool)

  datatype Endian = Big | Little

  /** `BYTE_SWAP_COND` */
  predicate ByteSwap(opt: RegOpt, endian: Endian) {
    opt.little || (endian == Little && !opt.big)
  }

  /** Which registers are swapped: a register's own order comes first, `little` before `big`, then the target's. */
  lemma ByteOrder(endian: Endian)
    ensures ByteSwap(RegOpt(false, false), Little) && !ByteSwap(RegOpt(false, false), Big)
    ensures ByteSwap(RegOpt(false, true), endian) && ByteSwap(RegOpt(true, true), endian)
    ensures !ByteSwap(RegOpt(true, false), endian)
  {
  }

  lemma SwappedIsHex(s: string)
    requires |s| % 2 == 0 && N.IsHex(s)
    ensures N.IsHex(Swapped(s))
  {
    forall c <- Swapped(s)
      ensures c in s
    {
    }
  }

  /** The bytes behind pairs of digits. */
  function Bytes(s: string): (r: seq<int>)
    requires |s| % 2 == 0
    ensures |r| == |s| / 2
    ensures forall k | 0 <= k < |r| :: r[k] == N.DigitValue(s[2 * k]) * 16 + N.DigitValue(s[2 * k + 1])
  {
    seq(|s| / 2, k requires 0 <= k < |s| / 2 => N.DigitValue(s[2 * k]) * 16 + N.DigitValue(s[2 * k + 1]))
  }

  /** The number whose most significant byte comes first. */
  function BigEndian(bytes: seq<int>): int {
    if bytes == [] then 0 else BigEndian(bytes[..|bytes| - 1]) * 256 + bytes[|bytes| - 1]
  }

  /** The number whose least significant byte comes first: the sum of byte k times 256 to the k. */
  function LittleEndian(bytes: seq<int>): int {
    if bytes == [] then 0 else bytes[0] + 256 * LittleEndian(bytes[1..])
  }

  function Reversed(bytes: seq<int>): (r: seq<int>)
    ensures |r| == |bytes| && forall k | 0 <= k < |r| :: r[k] == bytes[|bytes| - 1 - k]
  {
    seq(|bytes|, k requires 0 <= k < |bytes| => bytes[|bytes| - 1 - k])
  }

  lemma {:induction false} BigOfReversed(bytes: seq<int>)
    ensures BigEndian(Reversed(bytes)) == LittleEndian(bytes)
  {
    if bytes != [] {
      var r := Reversed(bytes);
      assert r[..|r| - 1] == Reversed(bytes[1..]);
      BigOfReversed(bytes[1..]);
    }
  }

  lemma ReversedByte(s: string, k: nat)
    requires |s| % 2 == 0 && k < |s| / 2
    ensures Bytes(Swapped(s))[k] == Reversed(Bytes(s))[k]
  {
    hide *;
    var n, r := |s|, Swapped(s);
    var m := n / 2 - 1 - k;
    SwappedPair(s, 2 * k);
    assert r[2 * k] == s[2 * m] && r[2 * k + 1] == s[2 * m + 1];
    assert Bytes(s)[m] == N.DigitValue(s[2 * m]) * 16 + N.DigitValue(s[2 * m + 1]);
  }

  lemma SwapReversesBytes(s: string)
    requires |s| % 2 == 0
    ensures Bytes(Swapped(s)) == Reversed(Bytes(s))
  {
    hide *;
    forall k | 0 <= k < |s| / 2
      ensures Bytes(Swapped(s))[k] == Reversed(Bytes(s))[k]
    {
      ReversedByte(s, k);
    }
  }

  lemma BytesMore(s: string)
    requires |s| % 2 == 0 && s != ""
    ensures var n := |s|;
            Bytes(s) == Bytes(s[..n - 2]) + [N.DigitValue(s[n - 2]) * 16 + N.DigitValue(s[n - 1])]
  {
    hide N.DigitValue;
  }

  lemma BigEndianMore(bytes: seq<int>, b: int)
    ensures BigEndian(bytes + [b]) == BigEndian(bytes) * 256 + b
    ensures BigEndian([]) == 0
  {
    assert (bytes + [b])[..|bytes + [b]| - 1] == bytes;
  }

  /** Reading digits as one hexadecimal number reads the bytes most significant first. */
  lemma {:induction false} HexIsBigEndian(s: string)
    requires |s| % 2 == 0
    ensures N.Value(s, 16) == BigEndian(Bytes(s))
    decreases |s|
  {
    hide *;
    if s == "" {
      N.ValueUnfold("", '0', 16);
      BigEndianMore([], 0);
    } else {
      var n := |s|;
      var front, c, d := s[..n - 2], s[n - 2], s[n - 1];
      HexIsBigEndian(front);
      BytesMore(s);
      BigEndianMore(Bytes(front), N.DigitValue(c) * 16 + N.DigitValue(d));
      N.ValueUnfold(front, c, 16);
      N.ValueUnfold(front + [c], d, 16);
      assert s == (front + [c]) + [d];
    }
  }

  /**
   * What is parsed after the swap is the number the bytes stand for: least significant first for a register that is
   * little-endian itself, and for one of a little-endian target that is not big-endian itself; else most significant first.
   */
  lemma ParsedValue(s: string, opt: RegOpt, endian: Endian)
    requires |s| % 2 == 0
    ensures N.Value(if ByteSwap(opt, endian) then Swapped(s) else s, 16) ==
            if opt.little then LittleEndian(Bytes(s))
            else if opt.big || endian == Big then BigEndian(Bytes(s))
            else LittleEndian(Bytes(s))
  {
    if ByteSwap(opt, endian) {
      HexIsBigEndian(Swapped(s));
      SwapReversesBytes(s);
      BigOfReversed(Bytes(s));
    } else {
      HexIsBigEndian(s);
    }
  }

  lemma {:induction false} HexBound(s: string)
    requires N.IsHex(s)
    ensures 0 <= N.Value(s, 16) < Pow2(4 * |s|)
    decreases |s|
  {
    if s != "" {
      var n := |s|;
      var front := s[..n - 1];
      assert forall c <- front :: c in s;
      HexBound(front);
      assert s[n - 1] in s;
      assert Pow2(4 * n) == 16 * Pow2(4 * n - 4) by {
        assert Pow2(4 * n) == 2 * Pow2(4 * n - 1) && Pow2(4 * n - 1) == 2 * Pow2(4 * n - 2);
        assert Pow2(4 * n - 2) == 2 * Pow2(4 * n - 3) && Pow2(4 * n - 3) == 2 * Pow2(4 * n - 4);
      }
    }
  }

  /** `strtoll` of digits saturates at the largest signed 64-bit number. */
  function ReadHex(s: string): (v: nat)
    requires N.IsHex(s)
  {
    HexBound(s);
    var v := N.Value(s, 16);
    if v > 0x7fff_ffff_ffff_ffff then 0x7fff_ffff_ffff_ffff else v
  }

  /** Registers of up to four bytes are read without saturation and fit 32 bits. */
  lemma SmallRegister(s: string)
    requires N.IsHex(s) && |s| <= 8
    ensures ReadHex(s) == N.Value(s, 16) && 0 <= ReadHex(s) < 0x1_0000_0000
  {
    HexBound(s);
    Pow2Grows(4 * |s|, 32);
    assert Pow2(32) == 0x1_0000_0000 by {
      Pow2Of32();
    }
  }

  lemma {:induction false} Pow2Grows(a: nat, b: nat)
    requires a <= b
    ensures Pow2(a) <= Pow2(b)
  {
    if a < b {
      Pow2Grows(a, b - 1);
    }
  }

  lemma Pow2Of32()
    ensures Pow2(32) == 0x1_0000_0000
  {
    assert Pow2(8) == 256;
    assert Pow2(16) == 65536;
    assert Pow2(24) == 16777216;
  }

  // ----- bit fields -----

  class Field {
    const name: string
    const idx: nat
    const nbits: nat
    const mask: nat
    var value: nat

    /** `per_bits_t`: the mask has 32 bits; what the loop does to it with further ones is undefined. */
    constructor (name: string, idx: nat, nbits: nat)
      ensures this.name == name && this.idx == idx && this.nbits == nbits && value == 0
      ensures Made()
    {
      this.name, this.idx, this.nbits, this.value := name, idx, nbits, 0;
      var m := 0;
      for i := 0 to nbits
        invariant i <= 32 ==> m == Pow2(i) - 1
      {
        if i < 32 {
          OrAbove(m, i);
          ShlIsTimes(1, i);
        }
        m := Or(m, Shl(1, i));
      }
      mask := m;
    }

    /** The mask covers the bits of the field. */
    predicate Made() {
      nbits <= 32 ==> mask == Pow2(nbits) - 1
    }
  }

  /** The value printed for a field; shifting the 32-bit mask drops what it pushes out. */
  function FieldValue(reg: nat, mask: nat, idx: nat): nat {
    Shr(And(reg, Shl(mask, idx) % 0x1_0000_0000), idx)
  }

  function Min(a: int, b: int): int {
    if a < b then a else b
  }

  lemma MinIs(a: int, b: int)
    ensures Min(a, b) == if a < b then a else b
  {
  }

  lemma {:induction false} Pow2Splits(a: nat, b: nat)
    ensures Pow2(a + b) == Pow2(a) * Pow2(b)
  {
    if a == 0 {
      assert 1 * Pow2(b) == Pow2(b);
    } else {
      Pow2Splits(a - 1, b);
      assert 2 * Pow2(a - 1) * Pow2(b) == 2 * (Pow2(a - 1) * Pow2(b));
    }
  }

  /** A shift within 32 bits keeps the low bits of the mask. */
  lemma MaskShifted(nbits: nat, idx: nat)
    requires nbits <= 32 && idx <= 32
    ensures Shl(Pow2(nbits) - 1, idx) % 0x1_0000_0000 == Shl(Pow2(Min(nbits, 32 - idx)) - 1, idx)
  {
    hide Pow2, Shl;
    var w, p := Min(nbits, 32 - idx), Pow2(idx);
    var lost := Pow2(nbits - w) - 1;
    Pow2Of32();
    ShlIsTimes(Pow2(nbits) - 1, idx);
    ShlIsTimes(Pow2(w) - 1, idx);
    Pow2Splits(nbits - w, w);
    Pow2Splits(w, idx);
    assert (Pow2(w) - 1) * p == Pow2(w) * p - p;
    Pow2Grows(w + idx, 32);
    if w == nbits {
      assert (Pow2(w) - 1) * p < 0x1_0000_0000;
    } else {
      assert Pow2(w) * p == 0x1_0000_0000;
      assert Pow2(nbits) == lost * Pow2(w) + Pow2(w);
      MaskParts(lost, Pow2(w), p);
      ModUnique((Pow2(nbits) - 1) * p, 0x1_0000_0000, lost, (Pow2(w) - 1) * p);
    }
  }

  lemma MaskParts(lost: nat, low: nat, p: nat)
    ensures (lost * low + low - 1) * p == lost * (low * p) + (low - 1) * p
  {
    assert lost * low * p == lost * (low * p);
  }

  /** What is shown for a field; shifts by 32 bits and more have no defined result. */
  function FieldShown(reg: nat, f: Field): Option<nat> {
    if f.nbits <= 32 && f.idx < 32 then Some(FieldValue(reg, f.mask, f.idx)) else None
  }

  lemma ShownIs(reg: nat, f: Field)
    ensures FieldShown(reg, f) == if f.nbits <= 32 && f.idx < 32 then Some(FieldValue(reg, f.mask, f.idx)) else None
    ensures f.Made() && f.nbits <= 32 ==> f.mask == Pow2(f.nbits) - 1
  {
  }

  /** A field shows the bits from its index on, as far as they lie in the first 32. */
  lemma FieldSees(reg: nat, f: Field)
    requires f.Made()
    ensures FieldShown(reg, f) ==
            if f.nbits <= 32 && f.idx < 32 then Some(reg / Pow2(f.idx) % Pow2(Min(f.nbits, 32 - f.idx))) else None
  {
    hide *;
    ShownIs(reg, f);
    if f.nbits <= 32 && f.idx < 32 {
      BitsSeen(reg, f.nbits, f.idx);
    }
  }

  lemma BitsSeen(reg: nat, nbits: nat, idx: nat)
    requires nbits <= 32 && idx < 32
    ensures FieldValue(reg, Pow2(nbits) - 1, idx) == reg / Pow2(idx) % Pow2(Min(nbits, 32 - idx))
  {
    hide *;
    var w := Min(nbits, 32 - idx);
    MinIs(nbits, 32 - idx);
    FieldUnfolds(reg, Pow2(nbits) - 1, idx);
    MaskShifted(nbits, idx);
    AndShifted(reg, Pow2(w) - 1, idx);
    AndLowMask(Shr(reg, idx), w);
    ShrIsDiv(reg, idx);
  }

  lemma FieldUnfolds(reg: nat, mask: nat, idx: nat)
    ensures FieldValue(reg, mask, idx) == Shr(And(reg, Shl(mask, idx) % 0x1_0000_0000), idx)
  {
  }

  /** A field shows its bits of every register value exactly if it starts and ends within the first 32 bits. */
  lemma FieldIsRight(f: Field)
    requires f.Made()
    ensures (forall reg: nat :: FieldShown(reg, f) == Some(reg / Pow2(f.idx) % Pow2(f.nbits)))
            <==> f.idx < 32 && f.idx + f.nbits <= 32
  {
    hide *;
    if f.idx < 32 && f.idx + f.nbits <= 32 {
      forall reg: nat
        ensures FieldShown(reg, f) == Some(reg / Pow2(f.idx) % Pow2(f.nbits))
      {
        FieldSees(reg, f);
        MinIs(f.nbits, 32 - f.idx);
      }
    } else {
      FieldSees(Pow2(32), f);
      if f.nbits <= 32 && f.idx < 32 {
        BitLost(f.nbits, f.idx);
      }
      assert FieldShown(Pow2(32), f) != Some(Pow2(32) / Pow2(f.idx) % Pow2(f.nbits));
    }
  }

  /** Bit 32 is in the field, but not shown. */
  lemma BitLost(nbits: nat, idx: nat)
    requires idx < 32 && idx + nbits > 32
    ensures Pow2(32) / Pow2(idx) % Pow2(Min(nbits, 32 - idx)) != Pow2(32) / Pow2(idx) % Pow2(nbits)
  {
    hide *;
    var high := 32 - idx;
    MinIs(nbits, high);
    Pow2Splits(high, idx);
    ModUnique(Pow2(32), Pow2(idx), Pow2(high), 0);
    ModUnique(Pow2(high), Pow2(high), 1, 0);
    Pow2Strict(high, nbits);
    ModUnique(Pow2(high), Pow2(nbits), 0, Pow2(high));
  }

  lemma Pow2Strict(a: nat, b: nat)
    requires a < b
    ensures Pow2(a) < Pow2(b)
  {
    Pow2Grows(a, b - 1);
  }
}

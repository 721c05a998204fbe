/** `gdb_memory_t::set`: what is written to memory for a value that the user typed. */
module MemorySet {
  import opened CStrings
  import N = Numbers

  /** A `char` as the signed number it is in the source. */
  function Code(c: char): int
    requires c as int < 256
  {
    if c as int < 128 then c as int else c as int - 256
  }

  /** Division and remainder towards zero. */
  function Quotient(v: int): int {
    if v >= 0 then v / 16 else -(-v / 16)
  }

  function Remainder(v: int): int {
    v - 16 * Quotient(v)
  }

  /** The digit written for a number; a negative one gives some other character. */
  function DigitFor(v: int): char
    requires -16 < v < 16
  {
    if v > 9 then (v + 87) as char else (v + 48) as char
  }

  /** `CTOHEXSTR` */
  function HexPair(c: char): (s: string)
    requires c as int < 256
    ensures |s| == 2
  {
    [DigitFor(Quotient(Code(c))), DigitFor(Remainder(Code(c)))]
  }

  predicate Bytes(s: string) {
    forall k | 0 <= k < |s| :: s[k] as int < 256
  }

  predicate Ascii(s: string) {
    forall k | 0 <= k < |s| :: s[k] as int < 128
  }

  function HexOf(s: string): (h: string)
    requires Bytes(s)
    ensures |h| == 2 * |s|
  {
    if s == "" then "" else HexPair(s[0]) + HexOf(s[1..])
  }

  /** What pairs of digits stand for. */
  function Decoded(h: string): seq<int>
    requires |h| % 2 == 0
  {
    if h == "" then [] else [N.DigitValue(h[0]) * 16 + N.DigitValue(h[1])] + Decoded(h[2..])
  }

  function Codes(s: string): seq<int> {
    if s == "" then [] else [s[0] as int] + Codes(s[1..])
  }

  /** A pair consists of digits exactly for ASCII characters, and then stands for the character. */
  lemma PairIsHex(c: char)
    requires c as int < 256
    ensures N.IsHexDigit(HexPair(c)[0]) && N.IsHexDigit(HexPair(c)[1]) <==> c as int < 128
    ensures c as int < 128 ==> N.DigitValue(HexPair(c)[0]) * 16 + N.DigitValue(HexPair(c)[1]) == c as int
  {
  }

  /** The hexadecimal form of a text is proper exactly for ASCII, and then it is that text again. */
  lemma {:induction false} HexRoundTrip(s: string)
    requires Bytes(s)
    ensures N.IsHex(HexOf(s)) <==> Ascii(s)
    ensures Ascii(s) ==> Decoded(HexOf(s)) == Codes(s)
  {
    if s != "" {
      hide HexPair, N.IsHexDigit, N.DigitValue;
      var p, h := HexPair(s[0]), HexOf(s[1..]);
      assert HexOf(s) == p + h && h == HexOf(s)[2..];
      PairIsHex(s[0]);
      HexRoundTrip(s[1..]);
      AsciiCons(s);
      HexConcat(p, h);
    }
  }

  lemma HexConcat(p: string, h: string)
    requires |p| == 2
    ensures N.IsHex(p + h) <==> N.IsHexDigit(p[0]) && N.IsHexDigit(p[1]) && N.IsHex(h)
  {
    hide N.IsHexDigit;
    assert p == [p[0], p[1]];
  }

  lemma AsciiCons(s: string)
    requires s != ""
    ensures Ascii(s) <==> s[0] as int < 128 && Ascii(s[1..])
  {
    assert s == [s[0]] + s[1..];
  }

  /** The digits to write, or why there are none: `TooShort` stands for values that the source reads past the end of. */
  datatype Value = Hex(digits: string) | Unclosed | TooShort

  /** What a value means: a quoted text, a character, or digits with or without prefix. */
  function Meaning(v: string): Value
    requires Bytes(v)
  {
    if v != "" && v[0] == '\"' then
      if v[|v| - 1] != '\"' then Unclosed
      else if |v| < 2 then TooShort
      else Hex(HexOf(v[1..|v| - 1]))
    else if v != "" && v[0] == '\'' then
      if |v| < 2 then TooShort else Hex(HexPair(v[1]))
    else if |v| >= 2 && v[0] == '0' && v[1] == 'x' then Hex(v[2..])
    else Hex(v)
  }

  /** A number, with prefix or without, is written as its digits, which read as that number. */
  lemma NumberMeans(n: nat)
    ensures Bytes("0x" + N.Digits(n, 16)) && Meaning("0x" + N.Digits(n, 16)) == Hex(N.Digits(n, 16))
    ensures Bytes(N.Digits(n, 16)) && Meaning(N.Digits(n, 16)) == Hex(N.Digits(n, 16))
    ensures N.Value(N.Digits(n, 16), 16) == n
  {
    hide N.Digits, N.Value, HexOf;
    N.DigitsPlain(n, 16);
    N.ValueOfDigits(n, 16);
    var d := N.Digits(n, 16);
    assert ("0x" + d)[2..] == d;
    N.DigitsSome(n, 16);
    assert d[0] in d && (|d| >= 2 ==> d[1] in d);
    forall k | 0 <= k < |d|
      ensures d[k] as int < 256
    {
      assert d[k] in d;
    }
  }

  /** A text in quotes is written as the codes of its characters if they are ASCII; without the closing quote not at all. */
  lemma TextMeans(t: string)
    requires Bytes(t)
    ensures var v := "\"" + t + "\"";
            Bytes(v) && Meaning(v).Hex? && |Meaning(v).digits| == 2 * |t| && (N.IsHex(Meaning(v).digits) <==> Ascii(t))
            && (Ascii(t) ==> Decoded(Meaning(v).digits) == Codes(t))
    ensures t == "" || t[|t| - 1] != '\"' ==>
              Bytes("\"" + t) && Meaning("\"" + t) == if t == "" then TooShort else Unclosed
  {
    hide N.IsHex, HexOf, Decoded, Codes, Ascii;
    var v := "\"" + t + "\"";
    assert v[1..|v| - 1] == t;
    HexRoundTrip(t);
  }

  /** A character behind an apostrophe is written as its code; what follows it is ignored. */
  lemma CharacterMeans(c: char, rest: string)
    requires c as int < 128 && Bytes(rest)
    ensures var v := "'" + [c] + rest;
            Bytes(v) && Meaning(v).Hex? && Decoded(Meaning(v).digits) == [c as int] && N.IsHex(Meaning(v).digits)
  {
    hide N.DigitValue;
    PairIsHex(c);
    var h := HexPair(c);
    assert h == [h[0], h[1]] && h[2..] == "";
  }

  lemma {:induction false} HexFront(s: string, c: char)
    requires Bytes(s) && c as int < 256
    ensures Bytes([c] + s) && HexOf([c] + s) == HexPair(c) + HexOf(s)
  {
    assert ([c] + s)[1..] == s;
  }

  /** The loop over a quoted text, from its end to its start. */
  method HexFill(value: array<char>, p: array<char>, n: nat, ghost s: string)
    requires p != value && n + 1 <= value.Length && 2 * n + 1 == p.Length
    requires s == value[1..n + 1] && Bytes(s) && p[2 * n] == NUL
    modifies p
    ensures p[..2 * n] == HexOf(s) && p[2 * n] == NUL
  {
    hide HexPair, HexOf;
    var len := n;
    NoText(s);
    while len > 0
      invariant 0 <= len <= n && Bytes(s[len..])
      invariant p[2 * len..2 * n] == HexOf(s[len..]) && p[2 * n] == NUL
    {
      ghost var rest := p[2 * len..2 * n];
      var c := value[len];
      assert c == s[len - 1] && s[len - 1..] == [c] + s[len..];
      HexFront(s[len..], c);
      var pair := HexPair(c);
      p[2 * len - 2] := pair[0];
      p[2 * len - 1] := pair[1];
      assert p[2 * (len - 1)..2 * n] == pair + rest;
      len := len - 1;
    }
    assert s[0..] == s;
  }

  lemma NoText(s: string)
    ensures s[|s|..] == "" && Bytes("") && HexOf("") == ""
  {
  }

  /** The value is the C string in a buffer; a character is converted in place. */
  method Set(value: array<char>) returns (r: Value)
    requires NUL in value[..] && Bytes(Str(value[..]))
    modifies value
    ensures r == Meaning(old(Str(value[..])))
  {
    ghost var v := Str(value[..]);
    StrAt(value[..]);
    var len := StrLen(value[..]);
    if len > 0 && value[0] == '\"' {
      if value[len - 1] != '\"' {
        return Unclosed;
      }
      if len < 2 {
        return TooShort;
      }
      len := len - 2;
      var p := new char[len * 2 + 1];
      p[len * 2] := NUL;
      assert v[1..|v| - 1] == value[1..len + 1];
      HexFill(value, p, len, v[1..|v| - 1]);
      r := Hex(p[..len * 2]);
    } else if len > 0 && value[0] == '\'' {
      if len < 2 {
        return TooShort;
      }
      assert value[1] == v[1];
      var pair := HexPair(value[1]);
      value[0] := pair[0];
      value[1] := pair[1];
      value[2] := NUL;
      r := Hex(value[..2]);
      assert value[..2] == pair;
    } else if len > 1 && value[0] == '0' && value[1] == 'x' {
      assert v[2..] == value[2..len];
      r := Hex(value[2..len]);
    } else {
      r := Hex(value[..len]);
    }
  }
}

/** The memory window: segments printed as aligned rows of bytes with their characters behind them. */
module MemoryDump {
  import opened Bits
  import opened CStrings
  import E = Escape
  import B = Buffers
  import N = Numbers

  // ----- alignment -----

  /** `PWR2`, exact. */
  predicate IsPow2(n: nat) {
    n == 1 || (n > 0 && n % 2 == 0 && IsPow2(n / 2))
  }

  /** `ALIGN(val, base)`, that is `val & ~(base - 1)`. */
  function Align(val: nat, base: nat): int
    requires base > 0
  {
    val - And(val, base - 1)
  }

  lemma {:induction false} Exponent(n: nat) returns (k: nat)
    requires IsPow2(n)
    ensures n == Pow2(k)
  {
    if n == 1 {
      k := 0;
    } else {
      k := Exponent(n / 2);
      k := k + 1;
    }
  }

  /** For powers of two the mask rounds down to a multiple. */
  lemma AlignRoundsDown(val: nat, base: nat)
    requires IsPow2(base)
    ensures Align(val, base) == val - val % base
  {
    var k := Exponent(base);
    AndLowMask(val, k);
  }

  // ----- one segment -----

  /** What is printed of a segment. */
  datatype Snap = Snap(begin: nat, length: nat, alignment: nat, expanded: bool, content: string, contentOld: string) {
    /** gdb's bytes come as pairs of hexadecimal digits. */
    predicate Ok()
      ensures Ok() ==> alignment > 0
    {
      IsPow2(alignment) && |content| == |contentOld| == 2 * length &&
      N.IsHex(content)
    }

    /** Cells of the first row that lie before the segment. */
    function Offset(): nat
      requires alignment > 0
    {
      begin % alignment
    }

    /** Cells up to the end of the segment. */
    function Total(): nat
      requires alignment > 0
    {
      Offset() + length
    }

    /** Cell `p`, counted from the start of the first row, shows a byte of the segment. */
    predicate Inside(p: nat)
      requires alignment > 0
    {
      Offset() <= p < Total()
    }
  }

  /** The digits of byte `k`, marked if they differ from the last time. */
  function ByteText(s: Snap, k: nat): string
    requires s.Ok() && k < s.length
  {
    var modified := s.content[2 * k..2 * k + 2] != s.contentOld[2 * k..2 * k + 2];
    B.Marked(s.content[2 * k..2 * k + 2], modified)
  }

  /** The character of byte `k`; NUL is shown as a blank. */
  function ByteChar(s: Snap, k: nat): (c: char)
    requires s.Ok() && k < s.length
    ensures c != NUL
  {
    assert s.content[2 * k] in s.content && s.content[2 * k + 1] in s.content;
    var code := N.DigitValue(s.content[2 * k]) * 16 + N.DigitValue(s.content[2 * k + 1]);
    if code == 0 then ' ' else code as char
  }

  function CellText(s: Snap, p: nat): string
    requires s.Ok()
  {
    if s.Inside(p) then ByteText(s, p - s.Offset()) else "??"
  }

  function CellChar(s: Snap, p: nat): (c: char)
    requires s.Ok()
    ensures c != NUL
  {
    if s.Inside(p) then ByteChar(s, p - s.Offset()) else ' '
  }

  /** The first `n` cells of row `r`. */
  function Cells(s: Snap, r: nat, n: nat): string
    requires s.Ok()
  {
    if n == 0 then "" else Cells(s, r, n - 1) + CellText(s, r * s.alignment + n - 1)
  }

  function Chars(s: Snap, r: nat, n: nat): (t: string)
    requires s.Ok()
    ensures |t| == n && NUL !in t
  {
    if n == 0 then "" else Chars(s, r, n - 1) + [CellChar(s, r * s.alignment + n - 1)]
  }

  /** Address of the first cell of row `r`. */
  function RowAddress(s: Snap, r: nat): nat
    requires s.alignment > 0
  {
    s.begin - s.Offset() + r * s.alignment
  }

  function RowHead(s: Snap, r: nat): string
    requires s.Ok()
  {
    " \U{00B4}h1" + N.HexAddress(RowAddress(s, r)) + "`h1    "
  }

  function CharLine(chars: string): string {
    "    \U{00B4}h2" + E.Escape(chars) + "`h2\n"
  }

  /** A complete row: its address, its cells, the characters. */
  function Row(s: Snap, r: nat): string
    requires s.Ok()
  {
    RowHead(s, r) + Cells(s, r, s.alignment) + CharLine(Chars(s, r, s.alignment))
  }

  function Rows(s: Snap, n: nat): string
    requires s.Ok()
  {
    if n == 0 then "" else Rows(s, n - 1) + Row(s, n - 1)
  }

  function RowCount(s: Snap): nat
    requires s.alignment > 0
  {
    (s.Total() + s.alignment - 1) / s.alignment
  }

  /** All rows, and the line behind them: blank after a row that had to be filled up, else an empty character line. */
  function Body(s: Snap): string
    requires s.Ok()
  {
    Rows(s, RowCount(s))
    + if s.Total() % s.alignment != 0 then "\n"
      else if s.Total() == 0 then RowHead(s, 0) + CharLine("")
      else CharLine("")
  }

  // ----- what the running loop has printed -----

  /** Everything printed once the first `j` cells of row `r` and all rows before it have been dealt with. */
  function Partial(s: Snap, r: nat, j: nat): string
    requires s.Ok()
  {
    Rows(s, r) + if j == 0 && r > 0 && r * s.alignment >= s.Total() then "" else RowHead(s, r) + Cells(s, r, j)
  }

  /** A cell that does not end its row. */
  lemma PartialCell(s: Snap, r: nat, j: nat)
    requires s.Ok() && j + 1 < s.alignment
    requires r * s.alignment + j < s.Total() || j != 0 || r == 0
    ensures Partial(s, r, j + 1) == Partial(s, r, j) + CellText(s, r * s.alignment + j)
    ensures Chars(s, r, j + 1) == Chars(s, r, j) + [CellChar(s, r * s.alignment + j)]
  {
    hide RowHead, CellText, CellChar, Rows;
  }

  /** A cell that completes its row. */
  lemma PartialRow(s: Snap, r: nat, j: nat)
    requires s.Ok() && j + 1 == s.alignment
    requires r * s.alignment + j < s.Total() || j != 0 || r == 0
    ensures Chars(s, r, j + 1) == Chars(s, r, j) + [CellChar(s, r * s.alignment + j)]
    ensures Partial(s, r + 1, 0) ==
            Partial(s, r, j) + CellText(s, r * s.alignment + j) + CharLine(Chars(s, r, s.alignment))
            + if r * s.alignment + j + 1 < s.Total() then RowHead(s, r + 1) else ""
  {
    hide *;
    SumTimes(r, 1, s.alignment);
    PartialUnfold(s, r, j);
    PartialUnfold(s, r + 1, 0);
    OneMoreCell(s, r, j);
    OneMoreRow(s, r);
    NoCells(s, r + 1);
    var cells, chars := Cells(s, r, s.alignment), CharLine(Chars(s, r, s.alignment));
    assert Rows(s, r + 1) == Rows(s, r) + (RowHead(s, r) + cells) + chars;
    assert RowHead(s, r + 1) + "" == RowHead(s, r + 1);
  }

  lemma OneMoreRow(s: Snap, r: nat)
    requires s.Ok()
    ensures Rows(s, r + 1) == Rows(s, r) + (RowHead(s, r) + Cells(s, r, s.alignment) + CharLine(Chars(s, r, s.alignment)))
  {
    hide RowHead, Cells, CharLine, Chars;
  }

  lemma NoCells(s: Snap, r: nat)
    requires s.Ok()
    ensures Cells(s, r, 0) == "" && s.alignment > 0
  {
  }

  lemma PartialStart(s: Snap)
    requires s.Ok()
    ensures Partial(s, 0, 0) == RowHead(s, 0) && Chars(s, 0, 0) == ""
  {
    assert "" + (RowHead(s, 0) + "") == RowHead(s, 0);
  }

  // ----- the loops -----

  /** The address test at the end of a row: `addr` is column `j` of an aligned row. */
  lemma EndOfRow(s: Snap, r: nat, j: nat)
    requires s.Ok() && j < s.alignment
    ensures var addr := RowAddress(s, r) + j;
            && Align(addr, s.alignment) == addr - j
            && Align(addr + s.alignment, s.alignment) == addr + s.alignment - j
            && (r == 0 && j == s.Offset() ==> addr == s.begin)
  {
    hide Align, IsPow2;
    var a, addr := s.alignment, RowAddress(s, r) + j;
    Residue(s.begin, a, r, j);
    AlignRoundsDown(addr, a);
    AlignRoundsDown(addr + a, a);
    FirstCell(s, r, j);
  }

  lemma FirstCell(s: Snap, r: nat, j: nat)
    requires s.alignment > 0
    ensures RowAddress(s, r) + j == s.begin - s.begin % s.alignment + r * s.alignment + j
    ensures r == 0 && j == s.Offset() ==> RowAddress(s, r) + j == s.begin
  {
    assert 0 * s.alignment == 0;
  }

  /** Column `j` of an aligned row. */
  lemma Residue(b: nat, a: nat, r: nat, j: nat)
    requires a > 0 && j < a
    ensures var addr := b - b % a + r * a + j;
            addr >= 0 && addr % a == j && (addr + a) % a == j
  {
    var q := b / a + r;
    assert b == b / a * a + b % a;
    SumTimes(b / a, r, a);
    SumTimes(q, 1, a);
    ModUnique(q * a + j, a, q, j);
    ModUnique(q * a + j + a, a, q + 1, j);
  }

  /** The buffer starts with the characters collected so far. */
  ghost predicate Keeps(ascii: array<char>, chars: string)
    reads ascii
  {
    |chars| <= ascii.Length && forall k | 0 <= k < |chars| :: ascii[k] == chars[k]
  }

  method PutChar(ascii: array<char>, j: nat, c: char, ghost chars: string)
    requires |chars| == j < ascii.Length && Keeps(ascii, chars)
    modifies ascii
    ensures Keeps(ascii, chars + [c])
  {
    ascii[j] := c;
  }

  /** Puts the terminator behind the row's characters and prints them. */
  method PrintChars(obuf: B.DynArray, ascii: array<char>, j: nat, ghost chars: string)
    requires obuf.Valid() && ascii != obuf.s && 2 * j + 1 <= ascii.Length
    requires |chars| == j && NUL !in chars && Keeps(ascii, chars)
    modifies obuf`idx, obuf`s, obuf.s, ascii
    ensures obuf.Valid() && (obuf.s == old(obuf.s) || fresh(obuf.s))
    ensures obuf.Text() == old(obuf.Text()) + CharLine(chars)
  {
    hide E.Escape;
    ascii[j] := NUL;
    HoldsText(ascii[..], chars);
    var escaped := E.StrEscape(ascii, ascii);
    assert escaped == ascii;
    var n := StrLen(escaped[..]);
    assert escaped[..n] == Str(escaped[..]);
    obuf.Add("    \U{00B4}h2" + escaped[..n] + "`h2\n");
  }

  /** The cells before the segment in its first row. */
  method PrintLead(s: Snap, obuf: B.DynArray, ascii: array<char>) returns (j: nat)
    requires s.Ok() && obuf.Valid() && ascii != obuf.s && 2 * s.alignment + 1 <= ascii.Length
    modifies obuf`idx, obuf`s, obuf.s, ascii
    ensures obuf.Valid() && (obuf.s == old(obuf.s) || fresh(obuf.s))
    ensures j == s.Offset() && Keeps(ascii, Chars(s, 0, j))
    ensures obuf.Text() == old(obuf.Text()) + Partial(s, 0, j)
  {
    hide Partial, Chars, CellText, CellChar, Align, N.HexAddress, Keeps;
    ghost var text0 := obuf.Text();
    NothingKept(ascii);
    EndOfRow(s, 0, 0);
    EndOfRow(s, 0, s.Offset());
    PartialStart(s);
    j := 0;
    var displ := Align(s.begin, s.alignment);
    obuf.Add(" \U{00B4}h1" + N.HexAddress(displ) + "`h1    ");
    while displ < s.begin
      invariant displ == RowAddress(s, 0) + j && j <= s.Offset()
      invariant obuf.Valid() && (obuf.s == old(obuf.s) || fresh(obuf.s))
      invariant obuf.Text() == text0 + Partial(s, 0, j)
      invariant Keeps(ascii, Chars(s, 0, j))
    {
      OutsideCell(s, j);
      PartialCell(s, 0, j);
      obuf.Add("??");
      PutChar(ascii, j, ' ', Chars(s, 0, j));
      j, displ := j + 1, displ + 1;
    }
  }

  lemma OutsideCell(s: Snap, p: nat)
    requires s.Ok() && !s.Inside(p)
    ensures CellText(s, p) == "??" && CellChar(s, p) == ' '
  {
  }

  lemma InsideCell(s: Snap, p: nat)
    requires s.Ok() && s.Inside(p)
    ensures CellText(s, p) == ByteText(s, p - s.Offset()) && CellChar(s, p) == ByteChar(s, p - s.Offset())
  {
  }

  lemma NothingKept(ascii: array<char>)
    ensures Keeps(ascii, "")
  {
  }

  lemma NoChars(s: Snap, r: nat)
    requires s.Ok()
    ensures Chars(s, r, 0) == ""
  {
  }

  /** What printing byte `i` in column `col` of row `r` adds to the text. */
  function ByteOutput(s: Snap, i: nat, r: nat, col: nat): string
    requires s.Ok() && i < s.length
  {
    ByteText(s, i)
    + if col + 1 < s.alignment then ""
      else CharLine(Chars(s, r, s.alignment)) + if i + 1 < s.length then RowHead(s, r + 1) else ""
  }

  /** One byte: its digits, its character and, behind the last column, the end of the row. */
  method PrintByte(s: Snap, i: nat, ghost r: nat, col: nat, obuf: B.DynArray, ascii: array<char>, addr: nat)
    returns (j: nat, newlines: nat)
    requires s.Ok() && i < s.length && col < s.alignment && s.Offset() + i == r * s.alignment + col
    requires addr == s.begin + i && RowAddress(s, r) + col == addr
    requires obuf.Valid() && ascii != obuf.s && 2 * s.alignment + 1 <= ascii.Length
    requires Keeps(ascii, Chars(s, r, col))
    modifies obuf`idx, obuf`s, obuf.s, ascii
    ensures obuf.Valid() && (obuf.s == old(obuf.s) || fresh(obuf.s))
    ensures if col + 1 == s.alignment then j == 0 && newlines == 1 else j == col + 1 && newlines == 0
    ensures Keeps(ascii, Chars(s, r + newlines, j))
    ensures obuf.Text() == old(obuf.Text()) + ByteOutput(s, i, r, col)
  {
    hide *;
    EndOfRow(s, r, col);
    ByteOutputIs(s, i, r, col);
    InsideCell(s, r * s.alignment + col);
    OneMoreCell(s, r, col);
    RowHeadIs(s, r + 1);
    ByteIs(s, i);
    var digits := s.content[i * 2..i * 2 + 2];
    var modified := digits != s.contentOld[i * 2..i * 2 + 2];
    obuf.Add((if modified then "\U{00B4}c" else "") + digits + (if modified then "`c" else ""));
    var c := N.DigitValue(s.content[i * 2]) * 16 + N.DigitValue(s.content[i * 2 + 1]);
    PutChar(ascii, col, if c == 0 then ' ' else c as char, Chars(s, r, col));
    j, newlines := col + 1, 0;
    if addr + 1 == Align(addr + s.alignment, s.alignment) {
      PrintChars(obuf, ascii, j, Chars(s, r, j));
      j, newlines := 0, 1;
      NoChars(s, r + 1);
      NothingKept(ascii);
      if i + 1 < s.length {
        obuf.Add(" \U{00B4}h1" + N.HexAddress(addr + 1) + "`h1    ");
      }
    }
  }

  /** What is shown of byte `k`: its two digits, marked if they were others before, and the character they stand for. */
  lemma ByteIs(s: Snap, k: nat)
    requires s.Ok() && k < s.length
    ensures |s.content| == |s.contentOld| == 2 * s.length
    ensures var digits, before := s.content[2 * k..2 * k + 2], s.contentOld[2 * k..2 * k + 2];
            ByteText(s, k) == (if digits != before then "\U{00B4}c" else "") + digits + (if digits != before then "`c" else "")
    ensures var code := N.DigitValue(s.content[2 * k]) * 16 + N.DigitValue(s.content[2 * k + 1]);
            0 <= code < 256 && ByteChar(s, k) == if code == 0 then ' ' else code as char
  {
    hide N.IsHex;
    DigitsOfByte(s, k);
    var digits := s.content[2 * k..2 * k + 2];
    assert "" + digits + "" == digits;
  }

  lemma RowHeadIs(s: Snap, r: nat)
    requires s.Ok()
    ensures RowHead(s, r) == " \U{00B4}h1" + N.HexAddress(RowAddress(s, r)) + "`h1    "
    ensures r > 0 ==> RowAddress(s, r) == RowAddress(s, r - 1) + s.alignment
  {
    assert r > 0 ==> r * s.alignment == (r - 1) * s.alignment + s.alignment;
  }

  lemma ByteOutputIs(s: Snap, i: nat, r: nat, col: nat)
    requires s.Ok() && i < s.length && col < s.alignment && s.Offset() + i == r * s.alignment + col
    ensures s.Inside(r * s.alignment + col) && r * s.alignment + col - s.Offset() == i
    ensures col + 1 < s.alignment ==> ByteOutput(s, i, r, col) == ByteText(s, i)
    ensures col + 1 == s.alignment && i + 1 < s.length ==>
              ByteOutput(s, i, r, col) == ByteText(s, i) + (CharLine(Chars(s, r, col + 1)) + RowHead(s, r + 1))
    ensures col + 1 == s.alignment && i + 1 == s.length ==>
              ByteOutput(s, i, r, col) == ByteText(s, i) + CharLine(Chars(s, r, col + 1))
  {
    hide ByteText, CharLine, RowHead, Chars;
  }

  /** The output of a byte is what the specification puts behind the bytes before it. */
  lemma PartialByte(s: Snap, i: nat, r: nat, col: nat)
    requires s.Ok() && i < s.length && col < s.alignment && s.Offset() + i == r * s.alignment + col
    ensures Partial(s, r, col) + ByteOutput(s, i, r, col) ==
            if col + 1 == s.alignment then Partial(s, r + 1, 0) else Partial(s, r, col + 1)
  {
    hide *;
    ByteOutputIs(s, i, r, col);
    InsideCell(s, r * s.alignment + col);
    InsideMeans(s, r * s.alignment + col);
    if col + 1 == s.alignment {
      PartialRow(s, r, col);
    } else {
      PartialCell(s, r, col);
    }
  }

  lemma RowStarts(s: Snap, r: nat)
    requires s.Ok()
    ensures RowAddress(s, r) == s.begin - s.Offset() + r * s.alignment && s.Offset() < s.alignment
  {
  }

  lemma InsideMeans(s: Snap, p: nat)
    requires s.Ok()
    ensures s.Inside(p) <==> s.Offset() <= p < s.Total()
    ensures s.Total() == s.Offset() + s.length && s.Offset() < s.alignment
  {
  }

  /** The bytes of the segment. */
  method PrintBytes(s: Snap, lead: nat, obuf: B.DynArray, ascii: array<char>, ghost text0: string)
    returns (j: nat, newlines: nat, addr: nat)
    requires s.Ok() && lead == s.Offset()
    requires obuf.Valid() && ascii != obuf.s && 2 * s.alignment + 1 <= ascii.Length
    requires Keeps(ascii, Chars(s, 0, lead)) && obuf.Text() == text0 + Partial(s, 0, lead)
    modifies obuf`idx, obuf`s, obuf.s, ascii
    ensures obuf.Valid() && (obuf.s == old(obuf.s) || fresh(obuf.s))
    ensures j < s.alignment && newlines * s.alignment + j == s.Total() && addr == s.begin + s.length
    ensures Keeps(ascii, Chars(s, newlines, j)) && obuf.Text() == text0 + Partial(s, newlines, j)
  {
    hide *;
    InsideMeans(s, lead);
    j, newlines, addr := lead, 0, s.begin;
    var i := 0;
    while i < s.length
      invariant 0 <= i <= s.length && addr == s.begin + i
      invariant j < s.alignment && newlines * s.alignment + j == s.Offset() + i
      invariant obuf.Valid() && (obuf.s == old(obuf.s) || fresh(obuf.s))
      invariant Keeps(ascii, Chars(s, newlines, j)) && obuf.Text() == text0 + Partial(s, newlines, j)
    {
      var more;
      ghost var r := newlines;
      EndOfRow(s, r, j);
      RowStarts(s, r);
      assert (r + 1) * s.alignment == r * s.alignment + s.alignment;
      PartialByte(s, i, r, j);
      j, more := PrintByte(s, i, r, j, obuf, ascii, addr);
      newlines := newlines + more;
      i, addr := i + 1, addr + 1;
    }
  }

  /** Fills the last row up. */
  method PrintTrail(s: Snap, ghost r: nat, col: nat, obuf: B.DynArray, ascii: array<char>, end: nat, ghost text0: string)
    returns (j: nat)
    requires s.Ok() && 0 < col < s.alignment && r * s.alignment + col == s.Total() && end == s.begin + s.length
    requires obuf.Valid() && ascii != obuf.s && 2 * s.alignment + 1 <= ascii.Length
    requires Keeps(ascii, Chars(s, r, col)) && obuf.Text() == text0 + Partial(s, r, col)
    modifies obuf`idx, obuf`s, obuf.s, ascii
    ensures obuf.Valid() && (obuf.s == old(obuf.s) || fresh(obuf.s))
    ensures j == s.alignment && Keeps(ascii, Chars(s, r, j))
    ensures obuf.Text() == text0 + Rows(s, r) + RowHead(s, r) + Cells(s, r, j)
  {
    hide Partial, Chars, CellText, CellChar, Align, Rows, RowHead, Cells, Keeps;
    EndOfRow(s, r, col);
    j := col;
    var addr := end;
    var displ := Align(addr + s.alignment, s.alignment);
    PartialUnfold(s, r, col);
    while addr < displ
      invariant displ - addr == s.alignment - j && col <= j <= s.alignment
      invariant obuf.Valid() && (obuf.s == old(obuf.s) || fresh(obuf.s))
      invariant Keeps(ascii, Chars(s, r, j))
      invariant obuf.Text() == text0 + Rows(s, r) + RowHead(s, r) + Cells(s, r, j)
    {
      OutsideCell(s, r * s.alignment + j);
      OneMoreCell(s, r, j);
      obuf.Add("??");
      PutChar(ascii, j, ' ', Chars(s, r, j));
      j, addr := j + 1, addr + 1;
    }
  }

  lemma PartialUnfold(s: Snap, r: nat, j: nat)
    requires s.Ok()
    ensures j > 0 || r == 0 || r * s.alignment < s.Total() ==> Partial(s, r, j) == Rows(s, r) + (RowHead(s, r) + Cells(s, r, j))
    ensures j == 0 && r > 0 && r * s.alignment >= s.Total() ==> Partial(s, r, j) == Rows(s, r)
  {
    hide RowHead, Rows, Cells;
    assert Rows(s, r) + "" == Rows(s, r);
  }

  lemma OneMoreCell(s: Snap, r: nat, j: nat)
    requires s.Ok()
    ensures Cells(s, r, j + 1) == Cells(s, r, j) + CellText(s, r * s.alignment + j)
    ensures Chars(s, r, j + 1) == Chars(s, r, j) + [CellChar(s, r * s.alignment + j)]
  {
    hide CellText, CellChar;
  }

  /** Everything between the column header and the next segment. */
  method PrintBody(s: Snap, obuf: B.DynArray, ascii: array<char>, line: nat) returns (next: nat)
    requires s.Ok() && obuf.Valid() && ascii != obuf.s && 2 * s.alignment + 1 <= ascii.Length
    modifies obuf`idx, obuf`s, obuf.s, ascii
    ensures obuf.Valid() && (obuf.s == old(obuf.s) || fresh(obuf.s))
    ensures obuf.Text() == old(obuf.Text()) + Body(s) && next == line + RowCount(s) + 1
  {
    hide *;
    ghost var text0 := obuf.Text();
    var lead := PrintLead(s, obuf, ascii);
    var j, newlines, addr := PrintBytes(s, lead, obuf, ascii, text0);
    EndOfRow(s, newlines, j);
    RowStarts(s, newlines);
    InsideMeans(s, 0);
    BodyIs(s, newlines, j);
    ghost var last := newlines;
    next := line + newlines;
    if Align(addr, s.alignment) != addr {
      j := PrintTrail(s, last, j, obuf, ascii, addr, text0);
    }
    PrintChars(obuf, ascii, j, Chars(s, last, j));
    next := next + 1;
    if j != 0 {
      obuf.Add("\n");
      next := next + 1;
    }
  }

  /** The specification of the body, by where the segment ends. */
  lemma BodyIs(s: Snap, r: nat, j: nat)
    requires s.Ok() && j < s.alignment && r * s.alignment + j == s.Total()
    ensures RowCount(s) == if j > 0 then r + 1 else r
    ensures Chars(s, r, 0) == ""
    ensures j == 0 ==> Body(s) == Partial(s, r, 0) + CharLine(Chars(s, r, 0))
    ensures j > 0 ==> Body(s) == Rows(s, r) + RowHead(s, r) + Cells(s, r, s.alignment)
                                 + CharLine(Chars(s, r, s.alignment)) + "\n"
  {
    hide RowHead, Cells, CharLine;
    var a := s.alignment;
    ModUnique(s.Total(), a, r, j);
    assert (r + 1) * a == r * a + a;
    if j > 0 {
      ModUnique(s.Total() + a - 1, a, r + 1, j - 1);
    } else {
      ModUnique(s.Total() + a - 1, a, r, a - 1);
      PartialUnfold(s, r, 0);
      if r == 0 {
        PartialStart(s);
        assert Body(s) == "" + (RowHead(s, 0) + CharLine("")) == RowHead(s, 0) + CharLine("");
      }
    }
  }

  // ----- where the bytes are -----

  /** Byte `k` is in row `(begin mod A + k) / A`, column `(begin + k) mod A`, under its own address. */
  lemma BytePlace(s: Snap, k: nat) returns (r: nat, c: nat)
    requires s.Ok() && k < s.length
    ensures r == (s.Offset() + k) / s.alignment && c == (s.begin + k) % s.alignment
    ensures r < RowCount(s) && c < s.alignment && r * s.alignment + c == s.Offset() + k
    ensures RowAddress(s, r) % s.alignment == 0 && RowAddress(s, r) + c == s.begin + k
  {
    hide RowCount;
    RowColumn(s.begin, s.alignment, k);
    r, c := (s.Offset() + k) / s.alignment, (s.begin + k) % s.alignment;
    RowsReach(s, r);
  }

  /**
   * The cell of byte `k` shows its two digits, bare if they were the same the last time and in the colour of changes
   * otherwise; its character has their value.
   */
  lemma ByteCell(s: Snap, k: nat)
    requires s.Ok() && k < s.length
    ensures |s.content| == |s.contentOld| == 2 * s.length
    ensures var digits := [s.content[2 * k], s.content[2 * k + 1]];
            && CellText(s, s.Offset() + k) ==
               (if s.contentOld[2 * k] == digits[0] && s.contentOld[2 * k + 1] == digits[1] then digits
                else "\U{00B4}c" + digits + "`c")
            && 0 <= N.Value(digits, 16) < 256
            && CellChar(s, s.Offset() + k) == (if digits == "00" then ' ' else N.Value(digits, 16) as char)
  {
    hide ByteText, ByteChar, CellText, CellChar, N.IsHex, N.DigitValue, N.Value;
    InsideCell(s, s.Offset() + k);
    ByteIs(s, k);
    ByteValue(s, k);
    var digits := [s.content[2 * k], s.content[2 * k + 1]];
    assert s.content[2 * k..2 * k + 2] == digits;
    assert "" + digits + "" == digits;
    assert s.contentOld[2 * k..2 * k + 2] == [s.contentOld[2 * k], s.contentOld[2 * k + 1]];
  }

  lemma ByteValue(s: Snap, k: nat)
    requires s.Ok() && k < s.length
    ensures var digits := [s.content[2 * k], s.content[2 * k + 1]];
            && N.Value(digits, 16) == N.DigitValue(digits[0]) * 16 + N.DigitValue(digits[1])
            && (N.Value(digits, 16) == 0 <==> digits == "00")
  {
    hide N.IsHex, N.Value;
    DigitsOfByte(s, k);
    var a, b := s.content[2 * k], s.content[2 * k + 1];
    N.ValueUnfold("", a, 16);
    N.ValueUnfold([a], b, 16);
    assert "" + [a] == [a] && [a] + [b] == [a, b];
    assert N.DigitValue(a) == 0 <==> a == '0';
    assert N.DigitValue(b) == 0 <==> b == '0';
  }

  lemma RowColumn(b: nat, a: nat, k: nat)
    requires a > 0
    ensures var p := b % a + k;
            var r, c := p / a, p % a;
            && r * a + c == p && c < a && (b + k) % a == c
            && (b - b % a + r * a) % a == 0 && b - b % a + r * a + c == b + k
  {
    var q, p := b / a, b % a + k;
    var r, c := p / a, p % a;
    Quotients(b, a);
    Quotients(p, a);
    SumTimes(q, r, a);
    ModUnique(b + k, a, q + r, c);
    ModUnique(b - b % a + r * a, a, q + r, 0);
  }

  lemma Quotients(b: nat, a: nat)
    requires a > 0
    ensures b == b / a * a + b % a
  {
  }

  lemma SumTimes(q: nat, r: nat, a: nat)
    ensures (q + r) * a == q * a + r * a
  {
  }

  lemma RowsReach(s: Snap, r: nat)
    requires s.alignment > 0 && r * s.alignment < s.Total()
    ensures r < RowCount(s)
  {
    var a, n := s.alignment, RowCount(s);
    assert n * a + a > s.Total() + a - 1;
    if n <= r {
      ProductOrder(n, r, a);
    }
  }

  /** All other cells are `??`, with a blank for a character, and every cell within the segment is that of a byte. */
  lemma OtherCells(s: Snap, r: nat, c: nat)
    requires s.Ok() && c < s.alignment
    ensures var addr := RowAddress(s, r) + c;
            if s.begin <= addr < s.begin + s.length then
              r == (s.Offset() + (addr - s.begin)) / s.alignment && c == addr % s.alignment
            else CellText(s, r * s.alignment + c) == "??" && CellChar(s, r * s.alignment + c) == ' '
  {
    hide ByteText, ByteChar;
    var addr := RowAddress(s, r) + c;
    if s.begin <= addr < s.begin + s.length {
      var k := addr - s.begin;
      assert s.Offset() + k == r * s.alignment + c;
      ModUnique(s.Offset() + k, s.alignment, r, c);
      Residue(s.begin, s.alignment, r, c);
    }
  }

  // ----- the whole block of a segment -----

  function ColumnNumbers(n: nat): string {
    if n == 0 then "" else ColumnNumbers(n - 1) + N.Pad(N.Digits(n - 1, 16), 2, ' ')
  }

  function Header(s: Snap): string {
    "[" + (if s.expanded then "-" else "+") + "] \U{00B4}h0memory dump: " + N.HexAddress(s.begin) + "`h0 ("
    + N.Decimal(s.length) + " bytes)\n"
  }

  function ColumnLine(s: Snap): string {
    " " + N.Pad("", 16, ' ') + "      \U{00B4}h1" + ColumnNumbers(s.alignment) + "`h1\n"
  }

  function Block(s: Snap): string
    requires s.Ok()
  {
    Header(s) + if s.expanded then ColumnLine(s) + Body(s) else "\n"
  }

  function BlockLines(s: Snap): nat
    requires s.Ok()
  {
    if s.expanded then RowCount(s) + 3 else 2
  }

  /** A text without newlines, followed by one. */
  predicate OneLine(t: string) {
    t != "" && t[|t| - 1] == '\n' && '\n' !in t[..|t| - 1]
  }

  lemma OneLineCounts(t: string)
    requires OneLine(t)
    ensures B.Newlines(t) == 1
  {
    B.NoNewlines(t[..|t| - 1]);
  }

  lemma PlainHex(a: nat)
    ensures '\n' !in N.HexAddress(a) && '%' !in N.HexAddress(a)
  {
    hide N.Digits, N.IsHex;
    N.DigitsPlain(a, 16);
    N.HexPlain(N.Digits(a, 16));
  }

  lemma CharLinePlain(chars: string)
    ensures OneLine(CharLine(chars))
  {
    hide E.Escape;
    E.NoRawControl(chars);
    var t := CharLine(chars);
    assert t[..|t| - 1] == "    \U{00B4}h2" + E.Escape(chars) + "`h2";
  }

  lemma {:induction false} CellsPlain(s: Snap, r: nat, n: nat)
    requires s.Ok()
    ensures '\n' !in Cells(s, r, n) && '%' !in Cells(s, r, n)
  {
    hide CellText;
    if n > 0 {
      CellsPlain(s, r, n - 1);
      CellPlain(s, r * s.alignment + n - 1);
    }
  }

  lemma CellPlain(s: Snap, p: nat)
    requires s.Ok()
    ensures '\n' !in CellText(s, p) && '%' !in CellText(s, p)
  {
    hide ByteText;
    if s.Inside(p) {
      BytePlain(s, p - s.Offset());
    }
  }

  lemma BytePlain(s: Snap, k: nat)
    requires s.Ok() && k < s.length
    ensures '\n' !in ByteText(s, k) && '%' !in ByteText(s, k)
  {
    hide N.IsHex;
    var two := s.content[2 * k..2 * k + 2];
    DigitsOfByte(s, k);
    N.HexPlain(two);
  }

  lemma DigitsOfByte(s: Snap, k: nat)
    requires s.Ok() && k < s.length
    ensures N.IsHex(s.content[2 * k..2 * k + 2]) && N.IsHexDigit(s.content[2 * k]) && N.IsHexDigit(s.content[2 * k + 1])
  {
    assert forall c <- s.content[2 * k..2 * k + 2] :: c in s.content;
  }

  lemma RowPlain(s: Snap, r: nat)
    requires s.Ok()
    ensures B.Newlines(Row(s, r)) == 1
    ensures B.Newlines(RowHead(s, r)) == 0 && '%' !in RowHead(s, r)
  {
    hide Cells, CharLine, N.HexAddress, B.Newlines;
    PlainHex(RowAddress(s, r));
    CellsPlain(s, r, s.alignment);
    var chars := Chars(s, r, s.alignment);
    CharLinePlain(chars);
    OneLineCounts(CharLine(chars));
    B.NoNewlines(RowHead(s, r));
    B.NoNewlines(Cells(s, r, s.alignment));
    B.NewlinesConcat(RowHead(s, r), Cells(s, r, s.alignment));
    B.NewlinesConcat(RowHead(s, r) + Cells(s, r, s.alignment), CharLine(chars));
  }

  lemma {:induction false} RowsPlain(s: Snap, n: nat)
    requires s.Ok()
    ensures B.Newlines(Rows(s, n)) == n
  {
    hide Row, B.Newlines;
    if n == 0 {
      B.NoNewlines("");
    } else {
      RowsPlain(s, n - 1);
      RowPlain(s, n - 1);
      B.NewlinesConcat(Rows(s, n - 1), Row(s, n - 1));
    }
  }

  lemma BodyPlain(s: Snap)
    requires s.Ok()
    ensures B.Newlines(Body(s)) == RowCount(s) + 1
  {
    hide Rows, RowHead, CharLine, RowCount, B.Newlines;
    var n := RowCount(s);
    RowsPlain(s, n);
    CharLinePlain("");
    OneLineCounts(CharLine(""));
    OneLineCounts("\n");
    RowPlain(s, 0);
    B.NewlinesConcat(RowHead(s, 0), CharLine(""));
    B.NewlinesConcat(Rows(s, n), "\n");
    B.NewlinesConcat(Rows(s, n), CharLine(""));
    B.NewlinesConcat(Rows(s, n), RowHead(s, 0) + CharLine(""));
  }

  lemma {:induction false} ColumnsPlain(n: nat)
    ensures '\n' !in ColumnNumbers(n) && '%' !in ColumnNumbers(n)
  {
    hide N.Digits, N.IsHex;
    if n > 0 {
      ColumnsPlain(n - 1);
      N.DigitsPlain(n - 1, 16);
      N.HexPlain(N.Digits(n - 1, 16));
    }
  }

  lemma LineEnds(t: string)
    requires '\n' !in t
    ensures OneLine(t + "\n")
  {
    assert (t + "\n")[..|t + "\n"| - 1] == t;
  }

  lemma PlainDecimal(n: nat)
    ensures '\n' !in N.Decimal(n) && '%' !in N.Decimal(n)
  {
    hide N.Digits, N.IsHex;
    N.DigitsPlain(n, 10);
    N.HexPlain(N.Digits(n, 10));
  }

  lemma HeaderWithout(s: Snap, c: char)
    requires c == '\n' || c == '%'
    ensures c !in Header(s)[..|Header(s)| - 1]
  {
    hide N.HexAddress, N.Decimal;
    PlainHex(s.begin);
    PlainDecimal(s.length);
    var front := "[" + (if s.expanded then "-" else "+") + "] \U{00B4}h0memory dump: ";
    var middle, back := "`h0 (", " bytes)";
    assert c !in front && c !in middle && c !in back;
    var text := front + N.HexAddress(s.begin) + middle + N.Decimal(s.length) + back;
    assert Header(s) == text + "\n";
  }

  lemma HeaderPlain(s: Snap)
    ensures OneLine(Header(s)) && '%' !in Header(s)
  {
    hide N.HexAddress, N.Digits, N.IsHex;
    HeaderWithout(s, '\n');
    HeaderWithout(s, '%');
    assert Header(s) == Header(s)[..|Header(s)| - 1] + "\n";
  }

  lemma HeadersPlain(s: Snap)
    ensures OneLine(Header(s)) && OneLine(ColumnLine(s)) && '%' !in Header(s) && '%' !in ColumnLine(s)
  {
    hide Header, N.Digits, ColumnNumbers, OneLine;
    HeaderPlain(s);
    ColumnsPlain(s.alignment);
    var t := " " + N.Pad("", 16, ' ') + "      \U{00B4}h1" + ColumnNumbers(s.alignment) + "`h1";
    LineEnds(t);
    assert ColumnLine(s) == t + "\n";
  }

  /** A block has as many lines as the loop counts for it. */
  lemma BlockPlain(s: Snap)
    requires s.Ok()
    ensures B.Newlines(Block(s)) == BlockLines(s)
  {
    hide Header, ColumnLine, Body, RowCount, B.Newlines;
    HeadersPlain(s);
    BodyPlain(s);
    OneLineCounts(Header(s));
    OneLineCounts(ColumnLine(s));
    OneLineCounts("\n");
    B.NewlinesConcat(ColumnLine(s), Body(s));
    B.NewlinesConcat(Header(s), if s.expanded then ColumnLine(s) + Body(s) else "\n");
  }

  // ----- percent signs -----

  /** Byte `k` is the code of the percent sign. */
  predicate IsPercent(s: Snap, k: nat)
    requires s.Ok() && k < s.length
  {
    s.content[2 * k] == '2' && s.content[2 * k + 1] == '5'
  }

  /** A segment on show holds a byte 0x25. */
  predicate ShowsPercent(s: Snap)
    requires s.Ok()
  {
    s.expanded && exists k | 0 <= k < s.length :: IsPercent(s, k)
  }

  lemma PercentByte(s: Snap, k: nat)
    requires s.Ok() && k < s.length
    ensures ByteChar(s, k) == '%' <==> IsPercent(s, k)
  {
    hide N.IsHex;
    DigitsOfByte(s, k);
    var hi, lo := N.DigitValue(s.content[2 * k]), N.DigitValue(s.content[2 * k + 1]);
    assert 0 <= hi < 16 && 0 <= lo < 16;
    assert hi * 16 + lo == 37 <==> hi == 2 && lo == 5;
  }

  /** Column `j` of row `r` shows a percent sign. */
  predicate PercentAt(s: Snap, r: nat, j: nat)
    requires s.Ok()
  {
    CellChar(s, r * s.alignment + j) == '%'
  }

  lemma {:induction false} PercentInChars(s: Snap, r: nat, n: nat)
    requires s.Ok()
    ensures '%' in Chars(s, r, n) <==> exists j | 0 <= j < n :: PercentAt(s, r, j)
  {
    hide CellChar;
    if n > 0 {
      PercentInChars(s, r, n - 1);
      assert r * s.alignment + n - 1 == r * s.alignment + (n - 1);
      assert Chars(s, r, n) == Chars(s, r, n - 1) + [CellChar(s, r * s.alignment + n - 1)];
      assert PercentAt(s, r, n - 1) <==> CellChar(s, r * s.alignment + n - 1) == '%';
    }
  }

  lemma PercentInCharLine(chars: string)
    ensures '%' in CharLine(chars) <==> '%' in chars
  {
    hide E.Escape;
    E.EscapeKeeps(chars, '%');
  }

  lemma PercentInRow(s: Snap, r: nat)
    requires s.Ok()
    ensures '%' in Row(s, r) <==> exists j | 0 <= j < s.alignment :: PercentAt(s, r, j)
  {
    hide RowHead, Cells, Chars, CharLine, PercentAt;
    RowPlain(s, r);
    CellsPlain(s, r, s.alignment);
    PercentInChars(s, r, s.alignment);
    PercentInCharLine(Chars(s, r, s.alignment));
  }

  lemma {:induction false} PercentInRows(s: Snap, n: nat)
    requires s.Ok()
    ensures '%' in Rows(s, n) <==> exists r, j | 0 <= r < n && 0 <= j < s.alignment :: PercentAt(s, r, j)
  {
    hide Row, PercentAt;
    if n > 0 {
      PercentInRows(s, n - 1);
      PercentInRow(s, n - 1);
    }
  }

  /** A cell with a percent sign shows a byte with its code. */
  lemma ByteOfCell(s: Snap, r: nat, j: nat) returns (k: nat)
    requires s.Ok() && PercentAt(s, r, j)
    ensures k < s.length && IsPercent(s, k)
  {
    hide IsPercent, CellChar;
    PercentCell(s, r * s.alignment + j);
    k := r * s.alignment + j - s.Offset();
  }

  /** A byte with its code is shown in some cell. */
  lemma CellOfByte(s: Snap, k: nat) returns (r: nat, j: nat)
    requires s.Ok() && k < s.length && IsPercent(s, k)
    ensures r < RowCount(s) && j < s.alignment && PercentAt(s, r, j)
  {
    hide IsPercent, RowCount, CellText, ByteText, CellChar;
    r, j := BytePlace(s, k);
    PercentCell(s, s.Offset() + k);
  }

  /** The cells with percent signs are those of the bytes with its code. */
  lemma PercentCells(s: Snap)
    requires s.Ok()
    ensures (exists r, j | 0 <= r < RowCount(s) && 0 <= j < s.alignment :: PercentAt(s, r, j))
            <==> exists k | 0 <= k < s.length :: IsPercent(s, k)
  {
    hide IsPercent, RowCount, PercentAt;
    if r, j :| 0 <= r < RowCount(s) && 0 <= j < s.alignment && PercentAt(s, r, j) {
      var k := ByteOfCell(s, r, j);
    }
    if k :| 0 <= k < s.length && IsPercent(s, k) {
      var r, j := CellOfByte(s, k);
    }
  }

  lemma PercentCell(s: Snap, p: nat)
    requires s.Ok()
    ensures CellChar(s, p) == '%' <==> s.Inside(p) && IsPercent(s, p - s.Offset())
  {
    hide ByteChar, IsPercent;
    if s.Inside(p) {
      PercentByte(s, p - s.Offset());
    }
  }

  lemma PercentInBody(s: Snap)
    requires s.Ok()
    ensures '%' in Body(s) <==> exists k | 0 <= k < s.length :: IsPercent(s, k)
  {
    hide Rows, RowHead, CharLine, IsPercent, PercentAt, RowCount;
    PercentInRows(s, RowCount(s));
    PercentCells(s);
    RowPlain(s, 0);
    PercentInCharLine("");
  }

  /** A block holds a percent sign exactly if its segment is unfolded and holds its code. */
  lemma PercentInBlock(s: Snap)
    requires s.Ok()
    ensures '%' in Block(s) <==> ShowsPercent(s)
  {
    hide Header, ColumnLine, Body, IsPercent;
    HeadersPlain(s);
    PercentInBody(s);
  }
}

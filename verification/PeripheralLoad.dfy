/** Loading a peripheral file: the integrity checks, what they guarantee, and what the values shown then mean. */
module PeripheralLoad {
  import opened Options
  import opened PeripheralView
  import opened Registers
  import opened Bits
  import opened CStrings
  import B = Buffers
  import E = Escape
  import M = MemorySet
  import N = Numbers

  const U32 := 0x1_0000_0000

  // ----- the checks -----

  /** The bits lie in the register, in unsigned arithmetic. */
  predicate BitsAccepted(f: Field, reg: Register) {
    (f.idx + f.nbits) % U32 <= reg.nbytes * 8 % U32
  }

  /** The register lies in the range and its bits in the register, in unsigned arithmetic. */
  predicate Accepted(reg: Register, size: nat) {
    reg.nbytes == 0 || ((reg.offset + reg.nbytes) % U32 <= size && forall f <- reg.bits :: BitsAccepted(f, reg))
  }

  /** One register: its name is de-escaped, and if it is acceptable it gets its range. */
  method CheckRegister(reg: Register, range: Range) returns (ok: bool)
    modifies reg`name, reg`parent
    ensures ok == Accepted(reg, range.size)
    ensures reg.name == E.Deescape(old(reg.name))
    ensures reg.parent == if ok && reg.nbytes > 0 then Some(range) else old(reg.parent)
  {
    reg.name := E.Deescape(reg.name);
    if reg.nbytes == 0 {
      return true;
    }
    if (reg.offset + reg.nbytes) % U32 > range.size {
      return false;
    }
    for i := 0 to |reg.bits|
      invariant forall k | 0 <= k < i :: BitsAccepted(reg.bits[k], reg)
    {
      if (reg.bits[i].idx + reg.bits[i].nbits) % U32 > reg.nbytes * 8 % U32 {
        assert !BitsAccepted(reg.bits[i], reg) && reg.bits[i] in reg.bits;
        return false;
      }
    }
    reg.parent := Some(range);
    return true;
  }

  /** What loading does to a register. */
  twostate predicate Loaded(reg: Register, range: Range)
    reads reg
  {
    && reg.name == E.Deescape(old(reg.name)) && reg.parent == (if reg.nbytes > 0 then Some(range) else old(reg.parent))
    && Accepted(reg, range.size)
  }

  /** The registers of a section, until one is refused. */
  method CheckRegisters(regs: seq<Register>, range: Range) returns (ok: bool)
    requires NoDup(regs)
    modifies (set r | r in regs)`name, (set r | r in regs)`parent
    ensures ok == forall r <- regs :: Accepted(r, range.size)
    ensures ok ==> forall r <- regs :: Loaded(r, range)
  {
    hide Accepted, E.Deescape;
    var i := 0;
    while i < |regs|
      invariant 0 <= i <= |regs|
      invariant forall k | 0 <= k < i :: Accepted(regs[k], range.size) && Loaded(regs[k], range)
      invariant forall k | i <= k < |regs| :: regs[k].name == old(regs[k].name) && regs[k].parent == old(regs[k].parent)
    {
      ok := CheckRegister(regs[i], range);
      if !ok {
        assert regs[i] in regs;
        return;
      }
      i := i + 1;
    }
    return true;
  }

  /** No register occurs twice. */
  ghost predicate RegistersApart(secs: seq<Section>) {
    secs == [] ||
    (NoDup(secs[0].regs) && (set r | r in secs[0].regs) !! RegistersIn(secs[1..]) && RegistersApart(secs[1..]))
  }

  ghost predicate AllAccepted(sec: Section, size: nat) {
    forall r <- sec.regs :: Accepted(r, size)
  }

  twostate predicate AllLoaded(sec: Section, range: Range)
    reads sec.regs
  {
    forall r <- sec.regs :: Loaded(r, range)
  }

  /** All sections of a range, until a register is refused. */
  method CheckRange(range: Range, ghost objs: set<Register>) returns (ok: bool)
    requires RegistersApart(range.sections) && RegistersIn(range.sections) <= objs
    modifies RegistersIn(range.sections)`name, RegistersIn(range.sections)`parent
    ensures ok == forall sec <- range.sections :: AllAccepted(sec, range.size)
    ensures ok ==> forall sec <- range.sections :: AllLoaded(sec, range)
    ensures ok ==> forall sec <- range.sections, r <- sec.regs :: '\n' in r.name <==> E.MakesNewline(old(r.name))
    // a new register that is no headline gets its range, and a headline none
    ensures ok ==> forall sec <- range.sections, r <- sec.regs :: old(r.parent) == None ==> (r.parent == None <==> r.nbytes == 0)
  {
    hide Accepted, E.Deescape, NoDup, RegistersIn, RegistersApart;
    var secs := range.sections;
    assert secs[0..] == secs;
    ghost var todo := RegistersIn(secs);
    var i := 0;
    while i < |secs|
      invariant 0 <= i <= |secs| && RegistersApart(secs[i..]) && todo == RegistersIn(secs[i..]) <= RegistersIn(secs)
      invariant forall k | 0 <= k < i :: AllAccepted(secs[k], range.size) && AllLoaded(secs[k], range)
      invariant forall k | 0 <= k < i :: (set r | r in secs[k].regs) !! todo
      invariant forall r <- todo :: r.name == old(r.name) && r.parent == old(r.parent)
    {
      RegistersUnfold(secs, i);
      ok := CheckRegisters(secs[i].regs, range);
      if !ok {
        assert secs[i] in secs && !AllAccepted(secs[i], range.size);
        return;
      }
      todo := RegistersIn(secs[i + 1..]);
      i := i + 1;
    }
    forall sec <- secs, r <- sec.regs
      ensures '\n' in r.name <==> E.MakesNewline(old(r.name))
    {
      assert AllLoaded(sec, range) && Loaded(r, range);
      E.NewlineAfterDeescape(old(r.name));
    }
    forall sec <- secs, r <- sec.regs
      ensures r.parent == if r.nbytes > 0 then Some(range) else old(r.parent)
    {
      assert AllLoaded(sec, range) && Loaded(r, range);
    }
    return true;
  }

  lemma RegistersUnfold(secs: seq<Section>, i: nat)
    requires i < |secs| && RegistersApart(secs[i..])
    ensures NoDup(secs[i].regs) && RegistersApart(secs[i + 1..])
    ensures (set r | r in secs[i].regs) !! RegistersIn(secs[i + 1..])
    ensures RegistersIn(secs[i..]) == (set r | r in secs[i].regs) + RegistersIn(secs[i + 1..])
  {
    assert secs[i..][0] == secs[i] && secs[i..][1..] == secs[i + 1..];
  }

  // ----- what the checks guarantee -----

  /**
   * An accepted register lies in its range exactly if its end does not wrap around; and then it is inside the content
   * that `cmd_per_update` swaps, terminates and prints.
   */
  lemma AcceptedIsInside(reg: Register, size: nat)
    requires reg.offset < U32 && reg.nbytes < U32 && size < U32 && reg.nbytes > 0 && Accepted(reg, size)
    ensures reg.offset + reg.nbytes <= size <==> reg.offset + reg.nbytes < U32
    ensures reg.offset + reg.nbytes < U32 ==> Inside(reg, 2 * size)
  {
    if reg.offset + reg.nbytes >= U32 {
      assert reg.offset + reg.nbytes > size;
    }
  }

  /** A loaded range whose register ends do not wrap around can be printed from any content of its size. */
  lemma LoadedRangeIsPrintable(range: Range, reply: string)
    requires range.size < U32 && forall sec <- range.sections :: AllAccepted(sec, range.size)
    requires forall sec <- range.sections, r <- sec.regs :: r.offset < U32 && r.nbytes < U32 && r.offset + r.nbytes < U32
    requires |reply| == 2 * range.size && N.IsHex(reply)
    ensures Answers(range, Some(reply))
  {
    hide Accepted, N.IsHex;
    forall i, k | 0 <= i < |range.sections| && 0 <= k < |range.sections[i].regs|
      ensures Inside(range.sections[i].regs[k], |reply|)
    {
      var sec := range.sections[i];
      var r := sec.regs[k];
      assert sec in range.sections && r in sec.regs && AllAccepted(sec, range.size);
      if r.nbytes > 0 {
        AcceptedIsInside(r, range.size);
      }
    }
  }

  /** An end that wraps around to the start is accepted for every range. */
  lemma WrappedEnd(reg: Register, size: nat)
    requires reg.offset == 0xffff_ffff && reg.nbytes == 1 && reg.bits == []
    ensures Accepted(reg, size) && (size < U32 ==> !Inside(reg, 2 * size))
  {
  }

  /** Fields of an accepted register of up to four bytes end within 32 bits, unless their end wraps around. */
  lemma AcceptedBits(reg: Register, size: nat, f: Field)
    requires 0 < reg.nbytes <= 4 && Accepted(reg, size) && f in reg.bits && f.idx + f.nbits < U32
    ensures f.idx + f.nbits <= 8 * reg.nbytes <= 32
  {
    assert BitsAccepted(f, reg);
  }

  /** The number that the bytes of a register stand for, in its own order or else in that of the target. */
  function RegisterValue(reg: Register, content: string, endian: Endian): int
    requires 2 * (reg.offset + reg.nbytes) <= |content|
  {
    var bytes := Bytes(Cell(reg, content));
    if reg.opt.little || (!reg.opt.big && endian == Little) then LittleEndian(bytes) else BigEndian(bytes)
  }

  const LLONG_MAX := 0x7fff_ffff_ffff_ffff

  /** The presented characters are read as that number, as long as it fits a signed 64-bit number. */
  lemma ReadsItsValue(reg: Register, content: string, endian: Endian)
    requires 2 * (reg.offset + reg.nbytes) <= |content| && N.IsHex(content)
    ensures var v := RegisterValue(reg, content, endian);
            v >= 0 && ReadHex(Presented(reg, content, endian)) == if v <= LLONG_MAX then v else LLONG_MAX
    ensures ReadHex(Presented(reg, content, endian)) == RegisterValue(reg, content, endian)
            <==> RegisterValue(reg, content, endian) <= LLONG_MAX
    ensures reg.nbytes <= 4 ==> RegisterValue(reg, content, endian) < U32
  {
    var cell, shown := Cell(reg, content), Presented(reg, content, endian);
    ParsedValue(cell, reg.opt, endian);
    HexBound(shown);
    if reg.nbytes <= 4 {
      SmallRegister(shown);
    }
  }

  /**
   * What a field shows: its bits of the number that the bytes of the register stand for in the register's byte order, as
   * far as they lie in the first 32; of numbers beyond the signed 64-bit range it shows the bits of the largest one in it.
   */
  lemma FieldShowsItsBits(reg: Register, content: string, endian: Endian, f: Field)
    requires 2 * (reg.offset + reg.nbytes) <= |content| && N.IsHex(content) && f.Made()
    ensures var v := RegisterValue(reg, content, endian);
            var shown := FieldShown(ReadHex(Presented(reg, content, endian)), f);
            && v >= 0 && (shown == None <==> f.nbits > 32 || f.idx >= 32)
            && (shown.Some? ==>
                  shown.value == (if v <= LLONG_MAX then v else LLONG_MAX) / Pow2(f.idx) % Pow2(Min(f.nbits, 32 - f.idx)))
            && (v <= LLONG_MAX && f.idx < 32 && f.idx + f.nbits <= 32 ==> shown == Some(v / Pow2(f.idx) % Pow2(f.nbits)))
  {
    hide *;
    ReadsItsValue(reg, content, endian);
    FieldSees(ReadHex(Presented(reg, content, endian)), f);
    if f.idx < 32 {
      MinIs(f.nbits, 32 - f.idx);
    }
  }

  /** In particular every field of an accepted register of up to four bytes shows its bits, unless its end wraps around. */
  lemma AcceptedFieldIsRight(reg: Register, size: nat, content: string, endian: Endian, f: Field)
    requires 0 < reg.nbytes <= 4 && Accepted(reg, size) && f in reg.bits && f.idx + f.nbits < U32 && f.Made()
    requires 2 * (reg.offset + reg.nbytes) <= |content| && N.IsHex(content) && f.nbits > 0
    ensures RegisterValue(reg, content, endian) >= 0
    ensures FieldShown(ReadHex(Presented(reg, content, endian)), f) ==
            Some(RegisterValue(reg, content, endian) / Pow2(f.idx) % Pow2(f.nbits))
  {
    hide Accepted, Pow2, RegisterValue, Presented, ReadHex, N.IsHex;
    AcceptedBits(reg, size, f);
    ReadsItsValue(reg, content, endian);
    FieldShowsItsBits(reg, content, endian, f);
  }

  /** The digits shown for a field are read back as its value, and are as many as its bits need. */
  lemma DigitsShown(f: Field, v: nat)
    requires 0 < f.nbits && v < Pow2(f.nbits)
    ensures var s := HexPrec(v, (f.nbits + 3) / 4);
            |s| == (f.nbits + 3) / 4 && N.Value(s, 16) == v
  {
    hide N.Digits, N.Value, N.Pow, Pow2;
    var p := (f.nbits + 3) / 4;
    N.ValueOfDigits(v, 16);
    ZerosInFront(N.Digits(v, 16), p);
    N.DigitCount(v, 16);
    FewDigits(v, f.nbits, p);
  }

  lemma {:induction false} SixteenIsFour(k: nat)
    ensures N.Pow(16, k) == Pow2(4 * k)
  {
    if k > 0 {
      SixteenIsFour(k - 1);
      Pow2Splits(4, 4 * (k - 1));
      assert Pow2(4) == 16;
    }
  }

  lemma FewDigits(v: nat, nbits: nat, p: nat)
    requires v < Pow2(nbits) && p == (nbits + 3) / 4 && nbits > 0
    ensures |N.Digits(v, 16)| <= p
  {
    hide *;
    var n := |N.Digits(v, 16)|;
    N.DigitCount(v, 16);
    if n > p {
      SixteenIsFour(n - 1);
      Pow2Grows(nbits, 4 * (n - 1));
      assert false;
    }
  }

  lemma ZerosInFront(s: string, width: nat)
    ensures N.Value(N.Pad(s, width, '0'), 16) == N.Value(s, 16)
  {
    hide N.Value;
    if |s| < width {
      N.ZerosInFront(width - |s|, s);
    }
  }

  // ----- names with newlines -----

  /** A raw name that becomes two lines. */
  lemma NewlineExample()
    ensures E.MakesNewline("a\\nb") && E.Deescape("a\\nb") == "a\nb"
  {
    var raw := "a\\nb";
    assert raw[1..] == "\\nb" && raw[1..][2..] == "b" && "b"[1..] == "";
    assert "\\nb"[2..] == "b";
    E.NewlineAfterDeescape(raw);
  }

  /** Lines are counted short once a register is on show whose raw name makes a newline. */
  lemma CountedShort(ranges: seq<Range>, replies: seq<Option<string>>, befores: seq<string>, endian: Endian, out: Output,
                     i: nat, sec: Section, reg: Register, raw: string)
    requires Answering(ranges, replies, befores) && Prints(AllItems(ranges, replies, befores, endian), EMPTY, out)
    requires i < |ranges| && ReadUpTo(replies, i) && sec in ranges[i].sections && sec.expanded && reg in sec.regs
    requires reg.name == E.Deescape(raw) && E.MakesNewline(raw)
    ensures out.line < 1 + B.Newlines(out.text)
  {
    hide AllItems, ViewWithout, Prints, Answers, ReadUpTo, E.Deescape, E.MakesNewline, B.Newlines;
    PlainView(ranges, replies, befores, endian, out);
    LinesLeadToObjects(AllItems(ranges, replies, befores, endian), out);
    E.NewlineAfterDeescape(raw);
    if ViewWithout(ranges, replies, '\n') {
      OnShow(ranges, replies, i, sec, reg, '\n');
    }
  }

  lemma {:induction false} OnShow(ranges: seq<Range>, replies: seq<Option<string>>, i: nat, sec: Section, reg: Register, c: char)
    requires |replies| == |ranges| && ViewWithout(ranges, replies, c)
    requires i < |ranges| && ReadUpTo(replies, i) && sec in ranges[i].sections && sec.expanded && reg in sec.regs
    ensures c !in reg.name
  {
    hide SecsWithout, RegWithout;
    assert replies[..i + 1][0] == replies[0];
    if i == 0 {
      SectionOnShow(ranges[0].sections, sec, reg, c);
    } else {
      assert replies[1..][..i] == replies[..i + 1][1..];
      OnShow(ranges[1..], replies[1..], i - 1, sec, reg, c);
    }
  }

  lemma {:induction false} SectionOnShow(secs: seq<Section>, sec: Section, reg: Register, c: char)
    requires SecsWithout(secs, c) && sec in secs && sec.expanded && reg in sec.regs
    ensures c !in reg.name
  {
    if secs[0] == sec {
      assert RegWithout(reg, c);
    } else {
      SectionOnShow(secs[1..], sec, reg, c);
    }
  }

  // ----- setting a register -----

  /** How the SET command ends. */
  datatype Outcome =
    | NoRegister
    | OddLength                                          // the value is swapped outside its buffer
    | NoRange                                            // a headline is asked for the address of its range
    | Sent(address: nat, value: M.Value, count: nat)     // what is written to memory

  /** The SET command for the register found at a screen line. */
  method SetRegister(line: nat, lineRegs: B.LineMap<Register>, value: array<char>, endian: Endian) returns (r: Outcome)
    requires NUL in value[..] && M.Bytes(Str(value[..]))
    modifies value
    ensures r ==
            match B.Lookup(lineRegs.v, line)
            case None => NoRegister
            case Some(reg) =>
              var v := old(Str(value[..]));
              if ByteSwap(reg.opt, endian) && |v| % 2 == 1 then OddLength
              else if reg.parent == None then NoRange
              else Sent(reg.parent.value.base + reg.offset, M.Meaning(Written(reg, v, endian)), reg.nbytes)
  {
    hide *;
    ghost var v := Str(value[..]);
    var found := lineRegs.Find(line);
    if found == None {
      return NoRegister;
    }
    var reg := found.value;
    if ByteSwap(reg.opt, endian) {
      var outside := SwapValue(value);
      if outside {
        return OddLength;
      }
    }
    WrittenIs(reg, v, endian);
    if reg.parent == None {
      return NoRange;
    }
    var meaning := M.Set(value);
    return Sent(reg.parent.value.base + reg.offset, meaning, reg.nbytes);
  }

  /** `strswap2` on the whole value. */
  method SwapValue(value: array<char>) returns (outside: bool)
    requires NUL in value[..] && M.Bytes(Str(value[..]))
    modifies value
    ensures outside <==> |old(Str(value[..]))| % 2 == 1
    ensures !outside ==> NUL in value[..] && Str(value[..]) == Swapped(old(Str(value[..]))) && M.Bytes(Str(value[..]))
  {
    hide *;
    ghost var v := Str(value[..]);
    TermAt(value[..]);
    var len := StrLen(value[..]);
    ghost var rest := value[len..];
    assert value[0..0 + len] == v && rest[0] == NUL;
    outside := StrSwap2(value, 0, len);
    if !outside {
      assert value[..] == Swapped(v) + rest;
      SwappedText(value[..], v);
    }
  }

  lemma WrittenIs(reg: Register, value: string, endian: Endian)
    requires ByteSwap(reg.opt, endian) ==> |value| % 2 == 0
    ensures Written(reg, value, endian) == if ByteSwap(reg.opt, endian) then Swapped(value) else value
  {
  }

  lemma TermAt(a: seq<char>)
    requires NUL in a
    ensures var n := StrLen(a); n < |a| && a[n] == NUL && a[..n] == a[0..n] == Str(a) && NUL !in Str(a)
  {
  }

  /** The swapped value is a text of the same length. */
  lemma SwappedText(a: seq<char>, v: string)
    requires |v| % 2 == 0 && NUL !in v && M.Bytes(v) && |v| < |a| && a[..|v|] == Swapped(v) && a[|v|] == NUL
    ensures NUL in a && Str(a) == Swapped(v) && M.Bytes(Str(a))
  {
    hide M.Bytes, Str, StrLen;
    var s := Swapped(v);
    assert NUL !in s;
    HoldsText(a, s);
    assert M.Bytes(s) by {
      SwappedBytes(v);
    }
  }

  lemma SwappedBytes(v: string)
    requires |v| % 2 == 0 && M.Bytes(v)
    ensures M.Bytes(Swapped(v))
  {
  }

  /** The bytes that are written: the value's own, or in reverse order for a little-endian register or target. */
  lemma WrittenBytes(reg: Register, value: string, endian: Endian)
    requires |value| % 2 == 0
    ensures Bytes(Written(reg, value, endian)) ==
            if reg.opt.little || (!reg.opt.big && endian == Little) then Reversed(Bytes(value)) else Bytes(value)
  {
    hide Swapped, Bytes;
    SwapReversesBytes(value);
  }

  /** The value that the SET command goes on with. */
  function Written(reg: Register, value: string, endian: Endian): string
    requires ByteSwap(reg.opt, endian) ==> |value| % 2 == 0
  {
    if ByteSwap(reg.opt, endian) then Swapped(value) else value
  }

  /**
   * gdb writes exactly as many bytes as it is told, and the value itself if that has this length. What is then shown for
   * the register is the value exactly if it has the length of the register, whatever the byte order.
   */
  lemma SetIsShown(reg: Register, content: string, value: string, endian: Endian, bytes: string)
    requires 2 * (reg.offset + reg.nbytes) <= |content| && (ByteSwap(reg.opt, endian) ==> |value| % 2 == 0)
    requires |bytes| == 2 * reg.nbytes && (|value| == 2 * reg.nbytes ==> bytes == Written(reg, value, endian))
    ensures Presented(reg, Patched(content, 2 * reg.offset, bytes), endian) == value <==> |value| == 2 * reg.nbytes
  {
    hide *;
    CellPatched(reg, content, bytes);
    PresentedUnfold(reg, Patched(content, 2 * reg.offset, bytes), endian);
    if |value| == 2 * reg.nbytes {
      WrittenIs(reg, value, endian);
      SwapTwice(value);
    }
  }

  lemma CellPatched(reg: Register, content: string, bytes: string)
    requires 2 * (reg.offset + reg.nbytes) <= |content| && |bytes| == 2 * reg.nbytes
    ensures Cell(reg, Patched(content, 2 * reg.offset, bytes)) == bytes
  {
    hide Patched;
    PatchedBack(content, 2 * reg.offset, bytes);
  }
}

/**
 * Peripheral ranges, their sections and registers, and the view that prints registers out of the memory content,
 * swapping and terminating it in place.
 */
module PeripheralView {
  import opened Options
  import opened Registers
  import opened Bits
  import opened CStrings
  import B = Buffers
  import L = Lines
  import N = Numbers

  /** Texts that the source may leave null are empty here; both are treated alike. */
  class Register {
    var name: string
    const desc: string
    const offset: nat
    const nbytes: nat
    const opt: RegOpt
    const bits: seq<Field>
    var parent: Option<Range>

    constructor (name: string, desc: string, offset: nat, nbytes: nat, opt: RegOpt, bits: seq<Field>)
      ensures this.name == name && this.desc == desc && this.offset == offset && this.nbytes == nbytes
      ensures this.opt == opt && this.bits == bits && parent == None
    {
      this.name, this.desc, this.offset, this.nbytes, this.opt := name, desc, offset, nbytes, opt;
      this.bits, this.parent := bits, None;
    }
  }

  class Section {
    const name: string
    const regs: seq<Register>
    var expanded: bool

    constructor (name: string, regs: seq<Register>)
      ensures this.name == name && this.regs == regs && !expanded
    {
      this.name, this.regs, this.expanded := name, regs, false;
    }
  }

  class Range {
    const base: nat
    const size: nat
    const sections: seq<Section>
    var content: array<char>
    var contentOld: array<char>

    /** The content is a string of two digits a byte. */
    ghost predicate Read()
      reads this
    {
      content.Length == 2 * size + 1
    }

    constructor (base: nat, size: nat, sections: seq<Section>, reply: string)
      requires |reply| == 2 * size
      ensures Read() && this.size == size && this.sections == sections && fresh(content)
    {
      this.base, this.size, this.sections := base, size, sections;
      content := new char[2 * size + 1];
      contentOld := new char[0];
    }

    /** `gdb_memory_t::update` */
    method Update(reply: Option<string>) returns (r: int)
      requires reply.Some? ==> |reply.value| == 2 * size
      modifies `content, `contentOld
      ensures r == if reply == None then -1 else 0
      ensures r == -1 ==> content == old(content) && contentOld == old(contentOld)
      ensures r == 0 ==> Read() && fresh(content) && content[..] == reply.value + [NUL] && contentOld == old(content)
    {
      if reply == None {
        return -1;
      }
      contentOld := content;
      content := new char[2 * size + 1];
      forall i | 0 <= i < 2 * size {
        content[i] := reply.value[i];
      }
      content[2 * size] := NUL;
      return 0;
    }
  }

  // ----- the objects below a range -----

  function Fields(reg: Register): set<Field> {
    set f | f in reg.bits
  }

  function FieldsOf(regs: seq<Register>): (r: set<Field>)
    ensures forall k | 0 <= k < |regs| :: Fields(regs[k]) <= r
  {
    if regs == [] then {} else Fields(regs[0]) + FieldsOf(regs[1..])
  }

  /** No field belongs to two registers or twice to one. */
  ghost predicate RegsApart(regs: seq<Register>) {
    regs == [] || (NoDup(regs[0].bits) && Fields(regs[0]) !! FieldsOf(regs[1..]) && RegsApart(regs[1..]))
  }

  ghost predicate NoDup<T>(s: seq<T>) {
    forall i, j | 0 <= i < j < |s| :: s[i] != s[j]
  }

  // ----- what is printed -----

  datatype Tag = Sec(sec: Section) | Reg(reg: Register)

  type Item = L.Item<Tag>

  const BLANK: Item := L.Item("", None)

  const MARK := "\U{00B4}"

  /** `%.*lx` */
  function HexPrec(v: nat, precision: nat): string {
    if v == 0 && precision == 0 then "" else N.Pad(N.Digits(v, 16), precision, '0')
  }

  function FieldText(f: Field, v: nat, modified: bool): string {
    "   " + MARK + "h3" + f.name + "`h3 " + B.Marked(HexPrec(v, (f.nbits + 3) / 4), modified)
  }

  function Piece(bits: seq<Field>, was: seq<nat>, k: nat, reg: nat): string
    requires k < |bits| == |was|
  {
    var v := FieldValue(reg, bits[k].mask, bits[k].idx);
    FieldText(bits[k], v, v != was[k])
  }

  function Pieces(bits: seq<Field>, was: seq<nat>, lo: nat, hi: nat, reg: nat): string
    requires lo <= hi <= |bits| == |was|
  {
    if lo == hi then "" else Pieces(bits, was, lo, hi - 1, reg) + Piece(bits, was, hi - 1, reg)
  }

  /** Four fields a line. */
  function FieldLines(bits: seq<Field>, was: seq<nat>, reg: nat): seq<Item>
    requires |bits| == |was|
  {
    seq((|bits| + 3) / 4,
        k requires 0 <= k < (|bits| + 3) / 4 => L.Item(Pieces(bits, was, 4 * k, Min(4 * k + 4, |bits|), reg), None))
  }

  function Values(bits: seq<Field>): (r: seq<nat>)
    reads (set f | f in bits)`value
    ensures |r| == |bits| && forall k | 0 <= k < |r| :: r[k] == bits[k].value
  {
    if bits == [] then [] else Values(bits[..|bits| - 1]) + [bits[|bits| - 1].value]
  }

  /** Lines finished when `i` fields are printed. */
  function Finished(i: nat): nat {
    if i == 0 then 0 else (i - 1) / 4
  }

  /** The text when `i` fields are printed. */
  function FieldsUpTo(bits: seq<Field>, was: seq<nat>, i: nat, reg: nat): string
    requires i <= |bits| == |was|
  {
    L.Render(FieldLines(bits, was, reg)[..Finished(i)]) + Pieces(bits, was, 4 * Finished(i), i, reg)
  }

  lemma OneMoreField(bits: seq<Field>, was: seq<nat>, i: nat, reg: nat)
    requires i < |bits| == |was|
    ensures FieldsUpTo(bits, was, i + 1, reg) ==
            (FieldsUpTo(bits, was, i, reg) + if i > 0 && i % 4 == 0 then "\n" else "") + Piece(bits, was, i, reg)
    ensures Finished(i + 1) == Finished(i) + if i > 0 && i % 4 == 0 then 1 else 0
  {
    hide Piece, Pieces, FieldsUpTo, FieldLines, L.Render;
    var q, p := Finished(i), Piece(bits, was, i, reg);
    UpToUnfold(bits, was, i, reg);
    UpToUnfold(bits, was, i + 1, reg);
    if i > 0 && i % 4 == 0 {
      FinishedLine(bits, was, i, reg);
    }
  }

  lemma UpToUnfold(bits: seq<Field>, was: seq<nat>, i: nat, reg: nat)
    requires i <= |bits| == |was|
    ensures Finished(i) <= |FieldLines(bits, was, reg)| && 4 * Finished(i) <= i && (i > 0 ==> 4 * Finished(i) < i)
    ensures FieldsUpTo(bits, was, i, reg) ==
            L.Render(FieldLines(bits, was, reg)[..Finished(i)]) + Pieces(bits, was, 4 * Finished(i), i, reg)
    ensures i > 0 ==> Pieces(bits, was, 4 * Finished(i), i, reg) ==
                      Pieces(bits, was, 4 * Finished(i), i - 1, reg) + Piece(bits, was, i - 1, reg)
    ensures Pieces(bits, was, i, i, reg) == ""
  {
    hide Piece, L.Render;
  }

  lemma FinishedLine(bits: seq<Field>, was: seq<nat>, i: nat, reg: nat)
    requires 0 < i < |bits| == |was| && i % 4 == 0
    ensures var lines, q := FieldLines(bits, was, reg), Finished(i);
            q + 1 <= |lines| &&
            L.Render(lines[..q + 1]) == L.Render(lines[..q]) + (Pieces(bits, was, 4 * q, i, reg) + "\n")
  {
    hide Piece, Pieces;
    var lines, q := FieldLines(bits, was, reg), Finished(i);
    assert lines[..q + 1][..q] == lines[..q] && lines[q].text == Pieces(bits, was, 4 * q, i, reg);
  }

  lemma AllFields(bits: seq<Field>, was: seq<nat>, reg: nat)
    requires 0 < |bits| == |was|
    ensures L.Render(FieldLines(bits, was, reg)) == FieldsUpTo(bits, was, |bits|, reg) + "\n"
    ensures |FieldLines(bits, was, reg)| == Finished(|bits|) + 1
  {
    hide Piece;
    var lines, q := FieldLines(bits, was, reg), Finished(|bits|);
    assert lines[..q] == lines[..|lines| - 1];
  }

  /** The characters of a register. */
  function Cell(reg: Register, content: string): (r: string)
    requires 2 * (reg.offset + reg.nbytes) <= |content|
    ensures |r| == 2 * reg.nbytes
  {
    content[2 * reg.offset..2 * (reg.offset + reg.nbytes)]
  }

  lemma CellIsHex(reg: Register, content: string)
    requires 2 * (reg.offset + reg.nbytes) <= |content| && N.IsHex(content)
    ensures N.IsHex(Cell(reg, content)) && N.IsHex(Swapped(Cell(reg, content)))
  {
    var cell := Cell(reg, content);
    assert forall c <- cell :: c in content;
    SwappedIsHex(cell);
  }

  /** The characters of a register as printed and parsed. */
  function Presented(reg: Register, content: string, endian: Endian): (r: string)
    requires 2 * (reg.offset + reg.nbytes) <= |content|
    ensures |r| == 2 * reg.nbytes
    ensures N.IsHex(content) ==> N.IsHex(r)
  {
    assert N.IsHex(content) ==> N.IsHex(Cell(reg, content)) && N.IsHex(Swapped(Cell(reg, content))) by {
      if N.IsHex(content) {
        CellIsHex(reg, content);
      }
    }
    if ByteSwap(reg.opt, endian) then Swapped(Cell(reg, content)) else Cell(reg, content)
  }

  /** A headline, or a register whose characters lie within `n` ones. */
  predicate Inside(reg: Register, n: nat) {
    reg.nbytes == 0 || 2 * (reg.offset + reg.nbytes) <= n
  }

  function Title(reg: Register, style: string): string
    reads reg`name
  {
    MARK + style + reg.name + (if reg.desc != "" then " - " + reg.desc else "") + "`" + style
  }

  /** The lines of a register, from the content of its range now and before. */
  function RegItems(reg: Register, now: string, before: string, endian: Endian): seq<Item>
    requires Inside(reg, |now|) && |before| == |now| && N.IsHex(now)
    reads reg`name, Fields(reg)`value
  {
    if reg.nbytes == 0 then [L.Item(" " + Title(reg, "h1"), Some(Reg(reg)))]
    else
      var shown := Presented(reg, now, endian);
      [L.Item("  " + Title(reg, "h2") + " = " + B.Marked(shown, Cell(reg, now) != Cell(reg, before)), Some(Reg(reg)))]
      + BitItems(reg, shown)
  }

  /** The lines of the fields when the register presents itself as `shown`. */
  function BitItems(reg: Register, shown: string): seq<Item>
    requires N.IsHex(shown)
    reads Fields(reg)`value
  {
    if reg.bits == [] then [] else FieldLines(reg.bits, Values(reg.bits), ReadHex(shown)) + [BLANK]
  }

  predicate AllInside(regs: seq<Register>, n: nat) {
    forall k | 0 <= k < |regs| :: Inside(regs[k], n)
  }

  function RegsItems(regs: seq<Register>, now: string, before: string, endian: Endian): seq<Item>
    requires AllInside(regs, |now|) && |before| == |now| && N.IsHex(now)
    reads (set r | r in regs)`name, FieldsOf(regs)`value
  {
    if regs == [] then [] else RegItems(regs[0], now, before, endian) + RegsItems(regs[1..], now, before, endian)
  }

  function Header(sec: Section): Item
    reads sec`expanded
  {
    L.Item("[" + (if sec.expanded then "-" else "+") + "] " + MARK + "h0" + sec.name + "`h0", Some(Sec(sec)))
  }

  /** A folded section shows its header only. */
  function SectionItems(sec: Section, now: string, before: string, endian: Endian): seq<Item>
    requires AllInside(sec.regs, |now|) && |before| == |now| && N.IsHex(now)
    reads sec`expanded, (set r | r in sec.regs)`name, FieldsOf(sec.regs)`value
  {
    [Header(sec)] + (if sec.expanded then RegsItems(sec.regs, now, before, endian) else []) + [BLANK]
  }

  function FieldsIn(secs: seq<Section>): set<Field> {
    if secs == [] then {} else FieldsOf(secs[0].regs) + FieldsIn(secs[1..])
  }

  ghost predicate SecsApart(secs: seq<Section>) {
    secs == [] ||
    (RegsApart(secs[0].regs) && FieldsOf(secs[0].regs) !! FieldsIn(secs[1..]) && SecsApart(secs[1..]))
  }

  function RegistersIn(secs: seq<Section>): set<Register> {
    if secs == [] then {} else (set r | r in secs[0].regs) + RegistersIn(secs[1..])
  }

  /** The fields of unfolded sections. */
  function Touched(sec: Section): (r: set<Field>)
    reads sec`expanded
    ensures r <= FieldsOf(sec.regs)
  {
    if sec.expanded then FieldsOf(sec.regs) else {}
  }

  function TouchedIn(secs: seq<Section>): (r: set<Field>)
    reads (set s | s in secs)`expanded
    ensures r <= FieldsIn(secs) && forall k | 0 <= k < |secs| :: Touched(secs[k]) <= r
  {
    if secs == [] then {} else Touched(secs[0]) + TouchedIn(secs[1..])
  }

  predicate SecsInside(secs: seq<Section>, n: nat) {
    forall k | 0 <= k < |secs| :: AllInside(secs[k].regs, n)
  }

  function SecsItems(secs: seq<Section>, now: string, before: string, endian: Endian): seq<Item>
    requires SecsInside(secs, |now|) && |before| == |now| && N.IsHex(now)
    reads (set s | s in secs)`expanded, RegistersIn(secs)`name, FieldsIn(secs)`value
  {
    if secs == [] then []
    else SectionItems(secs[0], now, before, endian) + SecsItems(secs[1..], now, before, endian)
  }

  /** The fields of the registers on show hold what was printed for them. */
  ghost predicate SectionHolds(sec: Section, now: string, endian: Endian)
    requires AllInside(sec.regs, |now|) && N.IsHex(now)
    reads sec`expanded, Touched(sec)`value
  {
    sec.expanded ==> forall k | 0 <= k < |sec.regs| :: FieldsHold(sec.regs[k], now, endian)
  }

  ghost predicate SecsHold(secs: seq<Section>, now: string, endian: Endian)
    requires SecsInside(secs, |now|) && N.IsHex(now)
    reads (set s | s in secs)`expanded, TouchedIn(secs)`value
  {
    forall k | 0 <= k < |secs| :: SectionHolds(secs[k], now, endian)
  }

  lemma NoDupMeans<T>(s: seq<T>)
    requires NoDup(s)
    ensures forall i, j | 0 <= i < j < |s| :: s[i] != s[j]
  {
  }

  /** The fields of a register hold what was printed for them. */
  ghost predicate FieldsHold(reg: Register, now: string, endian: Endian)
    requires Inside(reg, |now|) && N.IsHex(now)
    reads Fields(reg)`value
  {
    reg.nbytes > 0 ==>
      forall f <- reg.bits :: f.value == FieldValue(ReadHex(Presented(reg, now, endian)), f.mask, f.idx)
  }

  // ----- output -----

  /** What the window shows: text, next line, and the two line maps. */
  datatype Output = Output(text: string, line: nat, secs: seq<B.Entry<Section>>, regs: seq<B.Entry<Register>>)

  function SecsOf(items: seq<Item>): (r: seq<L.Item<Section>>)
    ensures |r| == |items| && forall k | 0 <= k < |r| :: r[k].text == items[k].text
  {
    seq(|items|, k requires 0 <= k < |items| =>
      L.Item(items[k].text, match items[k].tag case Some(Sec(sec)) => Some(sec) case _ => None))
  }

  function RegsOf(items: seq<Item>): (r: seq<L.Item<Register>>)
    ensures |r| == |items| && forall k | 0 <= k < |r| :: r[k].text == items[k].text
  {
    seq(|items|, k requires 0 <= k < |items| =>
      L.Item(items[k].text, match items[k].tag case Some(Reg(reg)) => Some(reg) case _ => None))
  }

  /** Printing the items takes the output from `a` to `b`. */
  ghost predicate Prints(items: seq<Item>, a: Output, b: Output) {
    L.Printed(SecsOf(items), a.text, b.text, a.line, b.line, a.secs, b.secs) &&
    L.Printed(RegsOf(items), a.text, b.text, a.line, b.line, a.regs, b.regs)
  }

  lemma PrintsThen(i: seq<Item>, j: seq<Item>, a: Output, b: Output, c: Output)
    requires Prints(i, a, b) && Prints(j, b, c)
    ensures Prints(i + j, a, c)
  {
    hide L.Printed;
    assert SecsOf(i + j) == SecsOf(i) + SecsOf(j) && RegsOf(i + j) == RegsOf(i) + RegsOf(j);
    L.PrintedThen(SecsOf(i), SecsOf(j), a.text, b.text, c.text, a.line, b.line, c.line, a.secs, b.secs, c.secs);
    L.PrintedThen(RegsOf(i), RegsOf(j), a.text, b.text, c.text, a.line, b.line, c.line, a.regs, b.regs, c.regs);
  }

  lemma PrintsNothing(a: Output)
    ensures Prints([], a, a)
  {
    hide L.Printed;
    assert SecsOf([]) == [] && RegsOf([]) == [];
    L.PrintedNothing(a.text, a.line, a.secs);
    L.PrintedNothing(a.text, a.line, a.regs);
  }

  function After(item: Item, a: Output): Output {
    Output(a.text + (item.text + "\n"), a.line + 1,
           match item.tag case Some(Sec(sec)) => a.secs + [B.Entry(a.line, sec)] case _ => a.secs,
           match item.tag case Some(Reg(reg)) => a.regs + [B.Entry(a.line, reg)] case _ => a.regs)
  }

  lemma PrintsOne(item: Item, a: Output)
    ensures Prints([item], a, After(item, a))
  {
    hide L.Printed, SecsOf, RegsOf;
    var s, r := SecsOf([item])[0], RegsOf([item])[0];
    ViewsOfOne(item);
    L.PrintedOne(s, a.text, a.line, a.secs);
    L.PrintedOne(r, a.text, a.line, a.regs);
  }

  lemma ViewsOfOne(item: Item)
    ensures SecsOf([item]) ==
            [L.Item(item.text, match item.tag case Some(Sec(sec)) => Some(sec) case _ => None)]
    ensures RegsOf([item]) ==
            [L.Item(item.text, match item.tag case Some(Reg(reg)) => Some(reg) case _ => None)]
  {
  }

  /** Lines that stand for nothing advance text and line number only. */
  lemma PrintsPlain(items: seq<Item>, a: Output)
    requires forall k | 0 <= k < |items| :: items[k].tag == None
    ensures Prints(items, a, a.(text := a.text + L.Render(items), line := a.line + |items|))
  {
    hide *;
    ViewsOfPlain(items);
    AddsLines(items, SecsOf(items), a.text, a.line, a.secs);
    AddsLines(items, RegsOf(items), a.text, a.line, a.regs);
    PrintsBoth(items, a, a.(text := a.text + L.Render(items), line := a.line + |items|));
  }

  lemma ViewsOfPlain(items: seq<Item>)
    requires forall k | 0 <= k < |items| :: items[k].tag == None
    ensures forall k | 0 <= k < |items| :: SecsOf(items)[k].tag == None && RegsOf(items)[k].tag == None
  {
  }

  lemma PrintsBoth(items: seq<Item>, a: Output, b: Output)
    requires L.Printed(SecsOf(items), a.text, b.text, a.line, b.line, a.secs, b.secs)
    requires L.Printed(RegsOf(items), a.text, b.text, a.line, b.line, a.regs, b.regs)
    ensures Prints(items, a, b)
  {
  }

  lemma AddsLines<T>(items: seq<Item>, j: seq<L.Item<T>>, text: string, line: nat, m: seq<B.Entry<T>>)
    requires |items| == |j| && forall k | 0 <= k < |j| :: j[k].text == items[k].text && j[k].tag == None
    ensures L.Printed(j, text, text + L.Render(items), line, line + |items|, m, m)
  {
    hide L.Render, L.Entries;
    SameRender(items, j);
    NoEntries(j, line);
  }

  lemma {:induction false} SameRender<T, U>(i: seq<L.Item<T>>, j: seq<L.Item<U>>)
    requires |i| == |j| && forall k | 0 <= k < |i| :: i[k].text == j[k].text
    ensures L.Render(i) == L.Render(j)
    decreases |i|
  {
    if i != [] {
      SameRender(i[..|i| - 1], j[..|j| - 1]);
    }
  }

  lemma {:induction false} NoEntries<T>(items: seq<L.Item<T>>, line: nat)
    requires forall k | 0 <= k < |items| :: items[k].tag == None
    ensures L.Entries(items, line) == []
    decreases |items|
  {
    if items != [] {
      NoEntries(items[..|items| - 1], line);
    }
  }

  // ----- the content while a register is printed -----

  /** The content is `now` and a terminator. */
  ghost predicate Holds(content: array<char>, now: string)
    reads content
  {
    content.Length == |now| + 1 && content[..] == now + [NUL]
  }

  /** The content of the register's cell. */
  lemma HeldCell(content: array<char>, now: string, from: nat, len: nat)
    requires Holds(content, now) && from + len <= |now|
    ensures content[from..from + len] == now[from..from + len]
  {
    assert content[..][from..from + len] == content[from..from + len];
  }

  /** What the previous content was. */
  ghost predicate HeldBefore(content: array<char>, before: string)
    reads content
  {
    content.Length > |before| && content[..|before|] == before
  }

  /** `now` with the part from `from` replaced. */
  function Patched(now: string, from: nat, part: string): (r: string)
    requires from + |part| <= |now|
    ensures |r| == |now|
  {
    now[..from] + part + now[from + |part|..]
  }

  lemma PatchedBack(now: string, from: nat, part: string)
    requires from + |part| <= |now|
    ensures Patched(Patched(now, from, part), from, now[from..from + |part|]) == now
    ensures Patched(now, from, part)[from..from + |part|] == part
  {
  }

  /** `strswap2` on the cell of a register. */
  method SwapCell(content: array<char>, from: nat, len: nat, ghost now: string)
    requires Holds(content, now) && from + len <= |now| && len % 2 == 0
    modifies content
    ensures Holds(content, Patched(now, from, Swapped(now[from..from + len])))
  {
    hide *;
    HoldsParts(content, now, from, len);
    var outside := StrSwap2(content, from, len);
    PatchedHolds(content, now, from, Swapped(now[from..from + len]));
  }

  lemma HoldsParts(content: array<char>, now: string, from: nat, len: nat)
    requires Holds(content, now) && from + len <= |now|
    ensures content.Length == |now| + 1 && content[..from] == now[..from] && content[from..from + len] == now[from..from + len]
    ensures content[from + len..] == now[from + len..] + [NUL]
  {
    assert content[..from] == content[..][..from] && content[from + len..] == content[..][from + len..];
    assert content[from..from + len] == content[..][from..from + len];
  }

  lemma PatchedHolds(content: array<char>, now: string, from: nat, part: string)
    requires from + |part| <= |now| && content.Length == |now| + 1
    requires content[..] == now[..from] + part + (now[from + |part|..] + [NUL])
    ensures Holds(content, Patched(now, from, part))
  {
  }

  /** The value of a register: its text is terminated for `strtoll`, and the character there put back. */
  method ReadRegister(content: array<char>, from: nat, len: nat, ghost now: string) returns (v: nat)
    requires Holds(content, now) && from + len <= |now| && N.IsHex(now[from..from + len])
    modifies content
    ensures Holds(content, now) && v == ReadHex(now[from..from + len])
  {
    HeldCell(content, now, from, len);
    ghost var cell := now[from..from + len];
    var c := content[from + len];
    content[from + len] := NUL;
    assert content[from..][..len] == cell && content[from..][len] == NUL;
    assert NUL !in cell;
    FirstNul(content[from..], len);
    v := ReadHex(Str(content[from..]));
    content[from + len] := c;
    assert content[..] == old(content[..]);
  }

  // ----- the view -----

  class View {
    var ranges: seq<Range>
    var endian: Endian
    const lineSecs: B.LineMap<Section>
    const lineRegs: B.LineMap<Register>
    const obuf: B.DynArray
    /** What the window shows, if that depends on its text alone. */
    var window: Option<string>

    constructor (ranges: seq<Range>, endian: Endian)
      ensures this.ranges == ranges && this.endian == endian && obuf.Valid()
      ensures fresh(lineSecs) && fresh(lineRegs) && fresh(obuf) && fresh(obuf.s)
    {
      this.ranges, this.endian, this.window := ranges, endian, Some("");
      lineSecs := new B.LineMap<Section>();
      lineRegs := new B.LineMap<Register>();
      obuf := new B.DynArray();
    }

    ghost function Now(line: nat): Output
      requires obuf.Valid()
      reads obuf, obuf.s, lineSecs, lineRegs
    {
      Output(obuf.Text(), line, lineSecs.v, lineRegs.v)
    }

    /** The format of a field. */
    method FormatField(f: Field, v: nat, modified: bool) returns (text: string)
      ensures text == FieldText(f, v, modified)
    {
      hide HexPrec;
      text := "   \U{00B4}h3" + f.name + "`h3 ";
      text := text + (if modified then "\U{00B4}c" else "") + HexPrec(v, (f.nbits + 3) / 4) + (if modified then "`c" else "");
      assert text == "   " + MARK + "h3" + f.name + "`h3 " + B.Marked(HexPrec(v, (f.nbits + 3) / 4), modified);
    }

    /** The format of a headline. */
    method FormatHeadline(reg: Register) returns (text: string)
      ensures text == " " + Title(reg, "h1")
    {
      text := " \U{00B4}h1" + reg.name + (if reg.desc != "" then " - " else "") + reg.desc + "`h1";
      assert " " + Title(reg, "h1") == " \U{00B4}h1" + reg.name + ((if reg.desc != "" then " - " else "") + reg.desc) + "`h1";
    }

    /** The format of a register. */
    method FormatRegister(reg: Register, shown: string, modified: bool) returns (text: string)
      ensures text == "  " + Title(reg, "h2") + " = " + B.Marked(shown, modified)
    {
      text := "  \U{00B4}h2" + reg.name + (if reg.desc != "" then " - " else "") + reg.desc + "`h2 = ";
      assert text == "  " + Title(reg, "h2") + " = ";
      text := text + (if modified then "\U{00B4}c" else "") + shown + (if modified then "`c" else "");
    }

    /** One field; the fifth, ninth and so on start a new line. */
    method PrintField(f: Field, i: nat, reg: nat, line: nat, ghost bits: seq<Field>, ghost was: seq<nat>) returns (next: nat)
      requires obuf.Valid() && i < |bits| == |was| && f == bits[i] && f.value == was[i]
      modifies obuf`idx, obuf`s, obuf.s, f`value
      ensures obuf.Valid() && (obuf.s == old(obuf.s) || fresh(obuf.s))
      ensures obuf.Text() == old(obuf.Text()) + (if i > 0 && i % 4 == 0 then "\n" else "") + Piece(bits, was, i, reg)
      ensures next == line + if i > 0 && i % 4 == 0 then 1 else 0
      ensures f.value == FieldValue(reg, f.mask, f.idx)
    {
      hide FieldValue, FieldText;
      next := line;
      assert obuf.Text() + "" == obuf.Text();
      if i > 0 && i % 4 == 0 {
        obuf.Add("\n");
        next := next + 1;
      }
      var v := FieldValue(reg, f.mask, f.idx);
      var modified := v != f.value;
      f.value := v;
      var text := FormatField(f, v, modified);
      obuf.Add(text);
    }

    /** The loop over the fields. */
    method PrintEachField(bits: seq<Field>, reg: nat, line: nat) returns (next: nat)
      requires obuf.Valid() && NoDup(bits)
      modifies obuf`idx, obuf`s, obuf.s, (set f | f in bits)`value
      ensures obuf.Valid() && (obuf.s == old(obuf.s) || fresh(obuf.s))
      ensures obuf.Text() == old(obuf.Text()) + FieldsUpTo(bits, old(Values(bits)), |bits|, reg)
      ensures next == line + Finished(|bits|)
      ensures forall f <- bits :: f.value == FieldValue(reg, f.mask, f.idx)
    {
      hide *;
      NoDupMeans(bits);
      ghost var was, text0 := Values(bits), obuf.Text();
      NoFields(bits, was, reg);
      next := line;
      var i := 0;
      while i < |bits|
        invariant 0 <= i <= |bits| && obuf.Valid() && (obuf.s == old(obuf.s) || fresh(obuf.s))
        invariant obuf.Text() == text0 + FieldsUpTo(bits, was, i, reg) && next == line + Finished(i)
        invariant forall k | i <= k < |bits| :: bits[k].value == was[k]
        invariant forall k | 0 <= k < i :: bits[k].value == FieldValue(reg, bits[k].mask, bits[k].idx)
      {
        OneMoreField(bits, was, i, reg);
        next := PrintField(bits[i], i, reg, next, bits, was);
        i := i + 1;
      }
    }

    /** The fields of a register, and a blank line. */
    method PrintFields(bits: seq<Field>, reg: nat, line: nat) returns (next: nat)
      requires obuf.Valid() && bits != [] && NoDup(bits)
      modifies obuf`idx, obuf`s, obuf.s, (set f | f in bits)`value
      ensures obuf.Valid() && (obuf.s == old(obuf.s) || fresh(obuf.s))
      ensures Prints(FieldLines(bits, old(Values(bits)), reg) + [BLANK], old(Now(line)), Now(next))
      ensures forall f <- bits :: f.value == FieldValue(reg, f.mask, f.idx)
    {
      hide Prints, FieldLines, FieldsUpTo, FieldValue, Values, NoDup, L.Render;
      ghost var items := FieldLines(bits, Values(bits), reg) + [BLANK];
      PlainFields(bits, Values(bits), reg);
      PrintsPlain(items, Now(line));
      next := PrintEachField(bits, reg, line);
      obuf.Add("\n\n");
      next := next + 2;
      assert obuf.Text() == old(obuf.Text()) + L.Render(items);
    }

    /** A line of text for a register that is already in the line map. */
    method PrintOwnLine(reg: Register, text: string, line: nat, ghost start: Output) returns (next: nat)
      requires obuf.Valid() && start.line == line
      requires Now(line) == start.(regs := start.regs + [B.Entry(line, reg)])
      modifies obuf`idx, obuf`s, obuf.s
      ensures obuf.Valid() && (obuf.s == old(obuf.s) || fresh(obuf.s))
      ensures Prints([L.Item(text, Some(Reg(reg)))], start, Now(next))
    {
      hide Prints;
      ghost var item := L.Item(text, Some(Reg(reg)));
      PrintsOne(item, start);
      AfterReg(item, start, reg);
      obuf.Add(text + "\n");
      next := line + 1;
    }

    /** The fields of a register, if it has any. */
    method PrintBits(reg: Register, content: array<char>, line: nat, ghost held: string) returns (next: nat)
      requires obuf.Valid() && content != obuf.s && Holds(content, held)
      requires 2 * (reg.offset + reg.nbytes) <= |held| && N.IsHex(Cell(reg, held)) && NoDup(reg.bits)
      modifies obuf`idx, obuf`s, obuf.s, content, Fields(reg)`value
      ensures obuf.Valid() && (obuf.s == old(obuf.s) || fresh(obuf.s)) && Holds(content, held)
      ensures Prints(old(BitItems(reg, Cell(reg, held))), old(Now(line)), Now(next))
      ensures forall f <- reg.bits :: f.value == FieldValue(ReadHex(Cell(reg, held)), f.mask, f.idx)
    {
      hide FieldLines, FieldValue, Prints, NoDup, ReadHex, N.IsHex;
      next := line;
      if reg.bits != [] {
        var v := ReadRegister(content, reg.offset * 2, reg.nbytes * 2, held);
        next := PrintFields(reg.bits, v, next);
      } else {
        PrintsNothing(Now(line));
      }
    }

    /** The line of a register, and its fields. */
    method PrintRegister(reg: Register, content: array<char>, contentOld: array<char>, line: nat,
                         ghost now: string, ghost before: string) returns (next: nat)
      requires obuf.Valid() && content != obuf.s && contentOld != obuf.s && content != contentOld
      requires Holds(content, now) && N.IsHex(now) && HeldBefore(contentOld, before) && |before| == |now|
      requires Inside(reg, |now|) && NoDup(reg.bits)
      modifies obuf`idx, obuf`s, obuf.s, lineRegs`v, content, Fields(reg)`value
      ensures obuf.Valid() && (obuf.s == old(obuf.s) || fresh(obuf.s))
      ensures Prints(old(RegItems(reg, now, before, endian)), old(Now(line)), Now(next))
      ensures Holds(content, now) && FieldsHold(reg, now, endian)
    {
      hide Prints, RegItems, BitItems, FieldLines, Swapped, Patched, Cell, Presented, Title, B.Marked, N.IsHex, ByteSwap, ReadHex;
      hide Holds, HeldBefore, FieldsHold, FieldValue, Inside, NoDup, Values;
      RegItemsParts(reg, now, before, endian);
      ghost var start, items := Now(line), RegItems(reg, now, before, endian);
      lineRegs.Add(line, reg);
      if reg.nbytes == 0 {
        var headline := FormatHeadline(reg);
        next := PrintOwnLine(reg, headline, line, start);
        FieldsHoldIs(reg, now, endian);
        return;
      }
      var from, len := reg.offset * 2, reg.nbytes * 2;
      CellIs(reg, content, contentOld, now, before);
      PresentedIs(reg, now, endian);
      var modified := content[from..from + len] != contentOld[from..from + len];
      ghost var held := if ByteSwap(reg.opt, endian) then Patched(now, from, Swapped(Cell(reg, now))) else now;
      ghost var shown := Presented(reg, now, endian);
      if ByteSwap(reg.opt, endian) {
        SwapCell(content, from, len, now);
      }
      HeldCell(content, held, from, len);
      CellOf(reg, held);
      ghost var bits := BitItems(reg, shown);
      var text := FormatRegister(reg, content[from..from + len], modified);
      next := PrintOwnLine(reg, text, line, start);
      ghost var middle := Now(next);
      assert bits == BitItems(reg, Cell(reg, held));
      next := PrintBits(reg, content, next, held);
      PrintsThen([items[0]], bits, start, middle, Now(next));
      assert items == [items[0]] + bits;
      if ByteSwap(reg.opt, endian) {
        SwapCell(content, from, len, held);
      }
      FieldsHoldIs(reg, now, endian);
    }

    /** The loop over the registers of a section. */
    method PrintRegisters(regs: seq<Register>, content: array<char>, contentOld: array<char>, line: nat,
                          ghost now: string, ghost before: string, ghost objs: set<Field>) returns (next: nat)
      requires obuf.Valid() && content != obuf.s && contentOld != obuf.s && content != contentOld
      requires Holds(content, now) && N.IsHex(now) && HeldBefore(contentOld, before) && |before| == |now|
      requires AllInside(regs, |now|) && RegsApart(regs) && FieldsOf(regs) <= objs
      modifies obuf`idx, obuf`s, obuf.s, lineRegs`v, content, FieldsOf(regs)`value
      ensures obuf.Valid() && (obuf.s == old(obuf.s) || fresh(obuf.s))
      ensures Prints(old(RegsItems(regs, now, before, endian)), old(Now(line)), Now(next))
      ensures Holds(content, now) && forall reg <- regs :: FieldsHold(reg, now, endian)
    {
      hide Prints, RegsItems, RegItems, FieldsOf, RegsApart, Holds, HeldBefore, FieldsHold, Inside, Now, N.IsHex, NoDup;
      ghost var start := Now(line);
      ghost var all, done, todo := RegsItems(regs, now, before, endian), [], RegsItems(regs, now, before, endian);
      PrintsNothing(start);
      assert regs[0..] == regs;
      next := line;
      var i := 0;
      while i < |regs|
        invariant 0 <= i <= |regs| && RegsApart(regs[i..]) && FieldsOf(regs[i..]) <= FieldsOf(regs)
        invariant obuf.Valid() && (obuf.s == old(obuf.s) || fresh(obuf.s))
        invariant Holds(content, now) && HeldBefore(contentOld, before)
        invariant todo == RegsItems(regs[i..], now, before, endian) && all == done + todo
        invariant Prints(done, start, Now(next))
        invariant forall k | 0 <= k < i :: FieldsHold(regs[k], now, endian) && Fields(regs[k]) !! FieldsOf(regs[i..])
      {
        RegsUnfold(regs, i, now, before, endian);
        ghost var item, middle := RegItems(regs[i], now, before, endian), Now(next);
        ghost var rest := RegsItems(regs[i + 1..], now, before, endian);
        next := PrintRegister(regs[i], content, contentOld, next, now, before);
        PrintsThen(done, item, start, middle, Now(next));
        assert rest == RegsItems(regs[i + 1..], now, before, endian);
        done, todo := done + item, rest;
        i := i + 1;
      }
      RegsUnfold(regs, i, now, before, endian);
      assert done == all;
    }

    /** One section. */
    method PrintSection(sec: Section, content: array<char>, contentOld: array<char>, line: nat,
                        ghost now: string, ghost before: string, ghost objs: set<Field>) returns (next: nat)
      requires obuf.Valid() && content != obuf.s && contentOld != obuf.s && content != contentOld
      requires Holds(content, now) && N.IsHex(now) && HeldBefore(contentOld, before) && |before| == |now|
      requires AllInside(sec.regs, |now|) && RegsApart(sec.regs) && FieldsOf(sec.regs) <= objs
      modifies obuf`idx, obuf`s, obuf.s, lineSecs`v, lineRegs`v, content, Touched(sec)`value
      ensures obuf.Valid() && (obuf.s == old(obuf.s) || fresh(obuf.s))
      ensures Prints(old(SectionItems(sec, now, before, endian)), old(Now(line)), Now(next))
      ensures Holds(content, now) && SectionHolds(sec, now, endian)
    {
      hide *;
      SectionParts(sec, now, before, endian);
      ghost var start, header, items := Now(line), Header(sec), SectionItems(sec, now, before, endian);
      ghost var regs := if sec.expanded then RegsItems(sec.regs, now, before, endian) else [];
      next := PrintHeader(sec, line);
      ghost var middle := Now(next);
      PrintsNothing(middle);
      if sec.expanded {
        next := PrintRegisters(sec.regs, content, contentOld, next, now, before, objs);
        SectionParts(sec, now, before, endian);
      }
      PrintsThen([header], regs, start, middle, Now(next));
      ghost var last := Now(next);
      next := PrintBlank(next);
      PrintsThen([header] + regs, [BLANK], start, last, Now(next));
    }

    method PrintHeader(sec: Section, line: nat) returns (next: nat)
      requires obuf.Valid()
      modifies obuf`idx, obuf`s, obuf.s, lineSecs`v
      ensures obuf.Valid() && (obuf.s == old(obuf.s) || fresh(obuf.s))
      ensures Prints([old(Header(sec))], old(Now(line)), Now(next))
    {
      hide Prints;
      PrintsOne(Header(sec), Now(line));
      obuf.Add("[" + (if sec.expanded then "-" else "+") + "] " + MARK + "h0" + sec.name + "`h0\n");
      lineSecs.Add(line, sec);
      next := line + 1;
      assert Header(sec).text + "\n" == "[" + (if sec.expanded then "-" else "+") + "] " + MARK + "h0" + sec.name + "`h0\n";
    }

    method PrintBlank(line: nat) returns (next: nat)
      requires obuf.Valid()
      modifies obuf`idx, obuf`s, obuf.s
      ensures obuf.Valid() && (obuf.s == old(obuf.s) || fresh(obuf.s))
      ensures Prints([BLANK], old(Now(line)), Now(next))
    {
      hide Prints;
      PrintsOne(BLANK, Now(line));
      assert "" + "\n" == "\n";
      obuf.Add("\n");
      next := line + 1;
    }

    /** The loop over the sections of a range. */
    method PrintSections(secs: seq<Section>, content: array<char>, contentOld: array<char>, line: nat,
                         ghost now: string, ghost before: string, ghost objs: set<Field>, ghost named: set<Register>)
      returns (next: nat)
      requires obuf.Valid() && content != obuf.s && contentOld != obuf.s && content != contentOld
      requires Holds(content, now) && N.IsHex(now) && HeldBefore(contentOld, before) && |before| == |now|
      requires SecsInside(secs, |now|) && SecsApart(secs) && FieldsIn(secs) <= objs && RegistersIn(secs) <= named
      modifies obuf`idx, obuf`s, obuf.s, lineSecs`v, lineRegs`v, content, TouchedIn(secs)`value
      ensures obuf.Valid() && (obuf.s == old(obuf.s) || fresh(obuf.s))
      ensures Prints(old(SecsItems(secs, now, before, endian)), old(Now(line)), Now(next))
      ensures Holds(content, now) && SecsHold(secs, now, endian)
    {
      hide *;
      ghost var start, touched := Now(line), TouchedIn(secs);
      ghost var all, done, todo := SecsItems(secs, now, before, endian), [], SecsItems(secs, now, before, endian);
      PrintsNothing(start);
      NoSecsDone(secs, now, before, objs, named);
      next := line;
      var i := 0;
      while i < |secs|
        invariant 0 <= i <= |secs| && obuf.Valid() && (obuf.s == old(obuf.s) || fresh(obuf.s))
        invariant Holds(content, now) && HeldBefore(contentOld, before)
        invariant SecsDone(secs, i, now, objs) && SecsTodo(secs, i, now, before, objs, named, touched, todo)
        invariant all == done + todo && Prints(done, start, Now(next))
      {
        ghost var item, rest;
        next, item, rest := PrintNextSection(secs[i], i, secs, content, contentOld, next, now, before, objs, named, touched,
                                             start, done, todo);
        assert all == (done + item) + rest;
        done, todo := done + item, rest;
        i := i + 1;
      }
      AllSecsDone(secs, i, now, before, objs, named, touched, todo);
      assert done == all;
    }

    /** The first `n` sections are printed, and have nothing in common with the fields still to be touched. */
    ghost predicate SecsDone(secs: seq<Section>, n: nat, now: string, objs: set<Field>)
      reads *
    {
      n <= |secs| &&
      forall k | 0 <= k < n ::
        && AllInside(secs[k].regs, |now|) && N.IsHex(now) && SectionHolds(secs[k], now, endian)
        && Touched(secs[k]) <= objs && Touched(secs[k]) !! TouchedIn(secs[n..])
    }

    /** What is known of the sections from `n` on; `todo` are their lines. */
    ghost predicate SecsTodo(secs: seq<Section>, n: nat, now: string, before: string, objs: set<Field>, named: set<Register>,
                             touched: set<Field>, todo: seq<Item>)
      reads *
    {
      && n <= |secs| && SecsApart(secs[n..]) && TouchedIn(secs[n..]) <= touched && FieldsIn(secs[n..]) <= objs
      && RegistersIn(secs[n..]) <= named && SecsInside(secs, |now|) && SecsInside(secs[n..], |now|)
      && |before| == |now| && N.IsHex(now) && todo == SecsItems(secs[n..], now, before, endian)
    }

    lemma NoSecsDone(secs: seq<Section>, now: string, before: string, objs: set<Field>, named: set<Register>)
      requires SecsInside(secs, |now|) && SecsApart(secs) && FieldsIn(secs) <= objs && RegistersIn(secs) <= named
      requires N.IsHex(now) && |before| == |now|
      ensures SecsDone(secs, 0, now, objs)
      ensures SecsTodo(secs, 0, now, before, objs, named, TouchedIn(secs), SecsItems(secs, now, before, endian))
    {
      hide SecsItems, SecsApart, TouchedIn, FieldsIn, RegistersIn, SecsInside, N.IsHex, SectionHolds;
      assert secs[0..] == secs;
    }

    lemma AllSecsDone(secs: seq<Section>, n: nat, now: string, before: string, objs: set<Field>, named: set<Register>,
                      touched: set<Field>, todo: seq<Item>)
      requires n == |secs| && SecsDone(secs, n, now, objs) && SecsTodo(secs, n, now, before, objs, named, touched, todo)
      ensures SecsInside(secs, |now|) && N.IsHex(now) && SecsHold(secs, now, endian) && todo == []
    {
      hide SecsApart, TouchedIn, FieldsIn, RegistersIn, N.IsHex, SectionHolds;
    }

    /** One round of the loop over the sections. */
    method PrintNextSection(sec: Section, i: nat, ghost secs: seq<Section>, content: array<char>, contentOld: array<char>,
                            line: nat, ghost now: string, ghost before: string, ghost objs: set<Field>,
                            ghost named: set<Register>, ghost touched: set<Field>, ghost start: Output,
                            ghost done: seq<Item>, ghost todo: seq<Item>)
      returns (next: nat, ghost item: seq<Item>, ghost rest: seq<Item>)
      requires obuf.Valid() && content != obuf.s && contentOld != obuf.s && content != contentOld
      requires Holds(content, now) && HeldBefore(contentOld, before) && i < |secs| && sec == secs[i]
      requires SecsDone(secs, i, now, objs) && SecsTodo(secs, i, now, before, objs, named, touched, todo)
      requires Prints(done, start, Now(line))
      modifies obuf`idx, obuf`s, obuf.s, lineSecs`v, lineRegs`v, content, touched`value
      ensures obuf.Valid() && (obuf.s == old(obuf.s) || fresh(obuf.s))
      ensures Holds(content, now) && HeldBefore(contentOld, before)
      ensures SecsDone(secs, i + 1, now, objs) && SecsTodo(secs, i + 1, now, before, objs, named, touched, rest)
      ensures todo == item + rest && Prints(done + item, start, Now(next))
    {
      hide Prints, SecsItems, SectionItems, SecsApart, FieldsIn, RegistersIn, SecsInside, TouchedIn, Touched, SectionHolds;
      hide Holds, HeldBefore, Now, N.IsHex, FieldsOf, AllInside, RegsApart;
      SecsUnfold(secs, i, now, before, endian);
      SecsInsideAt(secs, |now|);
      item, rest := SectionItems(sec, now, before, endian), SecsItems(secs[i + 1..], now, before, endian);
      ghost var middle := Now(line);
      next := PrintSection(sec, content, contentOld, line, now, before, objs);
      PrintsThen(done, item, start, middle, Now(next));
    }

    ghost predicate Valid()
      reads `ranges, obuf, ranges
    {
      obuf.Valid() && NoDup(ranges) && forall g <- ranges :: g.Read() && g.content != obuf.s
    }

    /** One range: its content is read again, kept beside the previous one, and printed. */
    method RefreshOne(range: Range, reply: Option<string>, line: nat, ghost objs: set<Field>, ghost named: set<Register>)
      returns (r: int, next: nat)
      requires obuf.Valid() && range.Read() && range.content != obuf.s && Answers(range, reply)
      requires SecsApart(range.sections) && FieldsIn(range.sections) <= objs && RegistersIn(range.sections) <= named
      modifies obuf`idx, obuf`s, obuf.s, lineSecs`v, lineRegs`v, range`content, range`contentOld, TouchedIn(range.sections)`value
      ensures obuf.Valid() && (obuf.s == old(obuf.s) || fresh(obuf.s))
      ensures range.Read() && range.content != obuf.s && (r != 0 ==> range.content == old(range.content))
      ensures r == if reply == None then -1 else 0
      ensures Prints(old(RangeItems(range, reply, Before(range), endian)), old(Now(line)), Now(next))
      ensures r == 0 ==> range.contentOld == old(range.content) && Refreshed(range, reply.value, endian)
    {
      hide Prints, SecsInside, SecsItems, N.IsHex, TouchedIn, FieldsIn, RegistersIn, SecsApart, SecsHold;
      next := line;
      PrintsNothing(Now(line));
      ghost var before, items := Before(range), RangeItems(range, reply, Before(range), endian);
      r := range.Update(reply);
      if r == 0 {
        assert range.contentOld[..|before|] == before;
        ghost var now := reply.value;
        assert items == SecsItems(range.sections, now, before, endian);
        next := PrintSections(range.sections, range.content, range.contentOld, next, now, before, objs, named);
      }
    }

    /** The first `n` ranges are refreshed, the others hold what they held; `olds` are all contents at the start. */
    ghost predicate Progress(n: nat, replies: seq<Option<string>>, befores: seq<string>, olds: seq<array<char>>, own: Parts)
      reads *
    {
      && n <= |ranges| == |replies| == |befores| == |olds|
      && (forall k | n <= k < |ranges| :: ranges[k].content == olds[k] && ranges[k].Read() && Before(ranges[k]) == befores[k])
      && forall k | 0 <= k < n ::
           replies[k].Some? && Done(ranges[k], replies[k].value, endian, olds[k], own, FieldsUnder(ranges[n..]))
    }

    /** One round of the loop keeps what the rounds before it did. */
    method RefreshAt(range: Range, i: nat, replies: seq<Option<string>>, line: nat,
                     ghost befores: seq<string>, ghost olds: seq<array<char>>, ghost own: Parts)
      returns (r: int, next: nat)
      requires Valid() && Progress(i, replies, befores, olds, own) && i < |ranges| && range == ranges[i]
      requires Answers(range, replies[i]) && SecsApart(range.sections)
      requires FieldsIn(range.sections) <= own.fields && RegistersIn(range.sections) <= own.registers
      requires FieldsUnder(ranges[i..]) == FieldsIn(range.sections) + FieldsUnder(ranges[i + 1..])
      requires FieldsIn(range.sections) !! FieldsUnder(ranges[i + 1..])
      modifies obuf`idx, obuf`s, obuf.s, lineSecs`v, lineRegs`v, range`content, range`contentOld, TouchedIn(range.sections)`value
      ensures Valid() && obuf.Valid() && (obuf.s == old(obuf.s) || fresh(obuf.s))
      ensures r == if replies[i] == None then -1 else 0
      ensures |befores[i]| == 2 * range.size
      ensures Prints(old(RangeItems(range, replies[i], befores[i], endian)), old(Now(line)), Now(next))
      ensures Progress(if r == 0 then i + 1 else i, replies, befores, olds, own)
    {
      hide Prints, RangeItems, SecsApart, FieldsIn, FieldsUnder, RegistersIn, TouchedIn, SecsHold, Holds, Now;
      hide SecsInside, N.IsHex;
      TouchedFields(range.sections);
      ghost var rest, later := FieldsUnder(ranges[i..]), FieldsUnder(ranges[i + 1..]);
      assert range.content == olds[i] && Before(range) == befores[i];
      r, next := RefreshOne(range, replies[i], line, own.fields, own.registers);
      forall k | 0 <= k < i
        ensures Done(ranges[k], replies[k].value, endian, olds[k], own, rest) &&
                Done(ranges[k], replies[k].value, endian, olds[k], own, later)
      {
        assert ranges[k] != range && ranges[k] in ranges;
        TouchedFields(ranges[k].sections);
        assert ranges[k].content[..] == old(ranges[k].content[..]);
        assert TouchedIn(ranges[k].sections) == old(TouchedIn(ranges[k].sections));
        assert SecsHold(ranges[k].sections, replies[k].value, endian);
        assert Holds(ranges[k].content, replies[k].value);
      }
      assert r == 0 ==> Done(range, replies[i].value, endian, olds[i], own, later);
      assert r != 0 ==> range.content == olds[i] && Before(range) == befores[i];
      forall k | i < k < |ranges|
        ensures ranges[k].content == olds[k] && ranges[k].Read() && Before(ranges[k]) == befores[k]
      {
        assert ranges[k] != range && ranges[k] in ranges;
      }
    }

    /** Empties text and line maps. */
    method Restart(ghost replies: seq<Option<string>>, ghost befores: seq<string>, ghost own: Parts,
                   ghost touched: set<Field>, ghost todo: seq<Item>)
      requires Valid() && Remains(0, replies, befores, own, touched, todo)
      modifies obuf`idx, obuf`s, obuf.s, lineSecs`v, lineRegs`v
      ensures Valid() && obuf.Valid() && obuf.s == old(obuf.s) && Prints([], EMPTY, Now(1))
      ensures Remains(0, replies, befores, own, touched, todo)
    {
      hide Prints, AllItems, TouchedUnder, RangesApart, AllAnswer, FieldsUnder, RegistersUnder, SectionsUnder;
      lineSecs.Clear();
      lineRegs.Clear();
      obuf.Clear();
      PrintsNothing(EMPTY);
    }

    /**
     * `cmd_per_update`: unless the window is missing, all ranges are read and printed, until a read fails. Whatever was
     * swapped or terminated on the way, every content is left as gdb delivered it. After a failed read the line maps are
     * those of the ranges before the failing one, while the window goes on showing its old text.
     */
    method Refresh(present: bool, replies: seq<Option<string>>, ghost own: Parts) returns (r: int, ghost line: nat)
      requires Valid() && |replies| == |ranges| && AllAnswer(ranges, replies) && RangesApart(ranges) && Owns(own, ranges)
      modifies obuf`idx, obuf`s, obuf.s, lineSecs`v, lineRegs`v, ranges`content, ranges`contentOld, TouchedUnder(ranges)`value
      modifies `window
      ensures Valid() && r == if present && None in replies then -1 else 0
      ensures !present ==> unchanged(this, obuf, lineSecs, lineRegs, ranges, own.fields) && obuf.s[..] == old(obuf.s[..])
      ensures present ==> Prints(old(AllItems(ranges, replies, Befores(ranges), endian)), EMPTY, Now(line)) && Intact()
      ensures present ==> forall i | 0 <= i < |ranges| && ReadUpTo(replies, i) ::
                ranges[i].contentOld == old(ranges[i].content) && Refreshed(ranges[i], replies[i].value, endian)
      ensures window == if present && r == 0 then B.Formatted(Now(line).text) else old(window)
      // the counter is in step with the text, and the window shows it, exactly if the names on show are plain
      ensures present ==> (line == 1 + B.Newlines(Now(line).text) <==> old(ViewWithout(ranges, replies, '\n')))
      ensures present && r == 0 ==> (window == Some(Now(line).text) <==> old(ViewWithout(ranges, replies, '%')))
    {
      hide *;
      if !present {
        return 0, 1;
      }
      ValidMeans();
      ghost var befores := Befores(ranges);
      AtStart(ranges, replies, befores);
      ghost var all := AllItems(ranges, replies, befores, endian);
      ghost var inStep, asIs := ViewWithout(ranges, replies, '\n'), ViewWithout(ranges, replies, '%');
      CharsOnShow(ranges, replies, befores, endian);
      TagsOfView(ranges, replies, befores, endian);
      r, line := RefreshAll(replies, own, befores);
      ViewIs(all, Now(line));
      EntriesAreTags(all, line);
      TextIs(line);
      if r == 0 {
        window := B.Formatted(obuf.s[..obuf.idx]);
        TextIs(line);
      }
    }

    /** The loop over the ranges. */
    method RefreshAll(replies: seq<Option<string>>, ghost own: Parts, ghost befores: seq<string>)
      returns (r: int, ghost line: nat)
      requires Valid() && |replies| == |ranges| && AllAnswer(ranges, replies) && RangesApart(ranges) && Owns(own, ranges)
      requires (forall g <- ranges :: g.Read()) && befores == Befores(ranges)
      modifies obuf`idx, obuf`s, obuf.s, lineSecs`v, lineRegs`v, ranges`content, ranges`contentOld, TouchedUnder(ranges)`value
      ensures Valid() && obuf.Valid() && r == if None in replies then -1 else 0
      ensures Prints(old(AllItems(ranges, replies, befores, endian)), EMPTY, Now(line))
      ensures forall i | 0 <= i < |ranges| && ReadUpTo(replies, i) ::
                ranges[i].contentOld == old(ranges[i].content) && Refreshed(ranges[i], replies[i].value, endian)
    {
      hide *;
      ValidMeans();
      ghost var olds, touched := Olds(ranges), TouchedUnder(ranges);
      ghost var all := AllItems(ranges, replies, befores, endian);
      ghost var done, todo: seq<Item> := [], all;
      AtStart(ranges, replies, befores);
      RemainsAtStart(replies, befores, own);
      Restart(replies, befores, own, touched, all);
      NoProgress(replies, befores, olds, own);
      line := 1;
      var next, i := 1, 0;
      while i < |ranges|
        invariant 0 <= i <= |ranges| && line == next && Valid() && obuf.Valid() && (obuf.s == old(obuf.s) || fresh(obuf.s))
        invariant Remains(i, replies, befores, own, touched, todo) && Progress(i, replies, befores, olds, own)
        invariant all == done + todo && Prints(done, EMPTY, Now(next))
      {
        ghost var item, rest;
        r, next, item, rest := RefreshNext(ranges[i], i, replies, next, befores, olds, own, touched, done, todo);
        line := next;
        assert all == (done + item) + rest;
        done, todo := done + item, rest;
        if r != 0 {
          assert replies[i] in replies;
          assert all == done;
          ProgressMeans(i, replies, befores, olds, own);
          return;
        }
        i := i + 1;
      }
      NothingRemains(i, replies, befores, own, touched, todo);
      ProgressMeans(i, replies, befores, olds, own);
      assert all == done;
      return 0, next;
    }

    /** All entries of the line maps stand for objects of the ranges. */
    ghost predicate Intact()
      reads `ranges, lineSecs, lineRegs
    {
      (forall e <- lineSecs.v :: e.data in SectionsUnder(ranges)) && (forall e <- lineRegs.v :: e.data in RegistersUnder(ranges))
    }

    lemma EntriesAreTags(items: seq<Item>, line: nat)
      requires obuf.Valid() && Prints(items, EMPTY, Now(line)) && TagsWithin(items, SectionsUnder(ranges), RegistersUnder(ranges))
      ensures Intact()
    {
      hide L.Render, L.Entries, SectionsUnder, RegistersUnder;
      L.EntriesFrom(SecsOf(items), 1);
      L.EntriesFrom(RegsOf(items), 1);
    }

    /** `cmd_per_cleanup`: before another file is loaded, and after a failed load. */
    method Cleanup()
      modifies `ranges, lineSecs`v, lineRegs`v
      ensures ranges == [] && Intact() && lineSecs.v == [] && lineRegs.v == []
    {
      lineSecs.Clear();
      lineRegs.Clear();
      ranges := [];
    }

    /** What is known of the ranges from `i` on: `todo` are the lines they will print. */
    ghost predicate Remains(i: nat, replies: seq<Option<string>>, befores: seq<string>, own: Parts, touched: set<Field>,
                            todo: seq<Item>)
      reads *
    {
      && i <= |ranges| == |replies| == |befores|
      && RangesApart(ranges[i..]) && Owns(own, ranges[i..]) && TouchedUnder(ranges[i..]) <= touched
      && Answering(ranges[i..], replies[i..], befores[i..])
      && todo == AllItems(ranges[i..], replies[i..], befores[i..], endian)
    }

    lemma RemainsAtStart(replies: seq<Option<string>>, befores: seq<string>, own: Parts)
      requires Answering(ranges, replies, befores) && RangesApart(ranges) && Owns(own, ranges)
      ensures Remains(0, replies, befores, own, TouchedUnder(ranges), AllItems(ranges, replies, befores, endian))
    {
      hide AllAnswer, RangesApart, Owns, TouchedUnder, AllItems;
      assert ranges[0..] == ranges && replies[0..] == replies && befores[0..] == befores;
    }

    lemma NothingRemains(i: nat, replies: seq<Option<string>>, befores: seq<string>, own: Parts, touched: set<Field>,
                         todo: seq<Item>)
      requires Remains(i, replies, befores, own, touched, todo) && i == |ranges|
      ensures todo == [] && |replies| == i && replies[..i] == replies
    {
    }

    /** One round of the loop, and what remains after it. */
    method RefreshNext(range: Range, i: nat, replies: seq<Option<string>>, line: nat, ghost befores: seq<string>,
                       ghost olds: seq<array<char>>, ghost own: Parts, ghost touched: set<Field>,
                       ghost done: seq<Item>, ghost todo: seq<Item>)
      returns (r: int, next: nat, ghost item: seq<Item>, ghost rest: seq<Item>)
      requires Valid() && obuf.Valid() && i < |ranges| == |replies| && range == ranges[i]
      requires Remains(i, replies, befores, own, touched, todo) && Progress(i, replies, befores, olds, own)
      requires Prints(done, EMPTY, Now(line))
      modifies obuf`idx, obuf`s, obuf.s, lineSecs`v, lineRegs`v, range`content, range`contentOld, touched`value
      ensures Valid() && obuf.Valid() && (obuf.s == old(obuf.s) || fresh(obuf.s))
      ensures r == if replies[i] == None then -1 else 0
      ensures todo == item + rest && Prints(done + item, EMPTY, Now(next))
      ensures r == 0 ==> Remains(i + 1, replies, befores, own, touched, rest)
      ensures r != 0 ==> rest == []
      ensures Progress(if r == 0 then i + 1 else i, replies, befores, olds, own)
    {
      hide Progress, AllItems, RangesApart, TouchedUnder, FieldsUnder, RegistersUnder, SectionsUnder, AllAnswer, Answers;
      hide RangeItems, Prints, Now, Valid;
      RangesUnfold(ranges, i, replies, befores, endian, own);
      item := RangeItems(range, replies[i], befores[i], endian);
      rest := if replies[i].Some? then AllItems(ranges[i + 1..], replies[i + 1..], befores[i + 1..], endian) else [];
      ghost var middle := Now(line);
      r, next := RefreshAt(range, i, replies, line, befores, olds, own);
      PrintsThen(done, item, EMPTY, middle, Now(next));
    }

    lemma TextIs(line: nat)
      requires obuf.Valid()
      ensures obuf.idx <= obuf.s.Length && Now(line).text == obuf.s[..obuf.idx] && Now(line).line == line
    {
    }

    lemma ValidMeans()
      requires Valid()
      ensures obuf.Valid() && forall g <- ranges :: g.Read() && g.content != obuf.s
    {
    }

    lemma NoProgress(replies: seq<Option<string>>, befores: seq<string>, olds: seq<array<char>>, own: Parts)
      requires Valid() && |ranges| == |replies| == |befores| == |olds|
      requires forall k | 0 <= k < |ranges| :: ranges[k].content == olds[k] && Before(ranges[k]) == befores[k]
      ensures Progress(0, replies, befores, olds, own)
    {
      hide Before;
    }

    lemma ProgressMeans(n: nat, replies: seq<Option<string>>, befores: seq<string>, olds: seq<array<char>>, own: Parts)
      requires Progress(n, replies, befores, olds, own)
      requires n < |ranges| ==> n < |replies| && replies[n] == None
      ensures None !in replies[..n]
      ensures forall i | 0 <= i < |ranges| && ReadUpTo(replies, i) ::
                Answers(ranges[i], replies[i]) && replies[i].Some? &&
                ranges[i].contentOld == olds[i] && Refreshed(ranges[i], replies[i].value, endian)
    {
      hide Refreshed, Answers;
      forall i | n <= i < |ranges|
        ensures !ReadUpTo(replies, i)
      {
        assert replies[..i + 1][n] == None;
      }
    }
  }

  /** The first `i + 1` ranges can be read. */
  predicate ReadUpTo(replies: seq<Option<string>>, i: nat)
    requires i < |replies|
  {
    None !in replies[..i + 1]
  }

  ghost function Olds(ranges: seq<Range>): (r: seq<array<char>>)
    reads ranges`content
    ensures |r| == |ranges| && forall k | 0 <= k < |r| :: r[k] == ranges[k].content
  {
    if ranges == [] then [] else Olds(ranges[..|ranges| - 1]) + [ranges[|ranges| - 1].content]
  }

  /** All that belongs to some ranges. */
  datatype Parts = Parts(fields: set<Field>, registers: set<Register>, sections: set<Section>)

  ghost predicate Owns(own: Parts, ranges: seq<Range>) {
    FieldsUnder(ranges) <= own.fields && RegistersUnder(ranges) <= own.registers && SectionsUnder(ranges) <= own.sections
  }

  /** A refreshed range that has nothing in common with the fields still to come. */
  ghost predicate Done(range: Range, reply: string, endian: Endian, before: array<char>, own: Parts, rest: set<Field>)
    reads range, range.content, (set s | s in range.sections)`expanded, TouchedIn(range.sections)`value
  {
    Answers(range, Some(reply)) && Refreshed(range, reply, endian) && range.contentOld == before &&
    FieldsIn(range.sections) <= own.fields && FieldsIn(range.sections) !! rest
  }

  lemma TouchedFields(secs: seq<Section>)
    ensures TouchedIn(secs) <= FieldsIn(secs)
  {
  }

  /** The preconditions of `AllItems`. */
  ghost predicate Answering(ranges: seq<Range>, replies: seq<Option<string>>, befores: seq<string>) {
    |replies| == |ranges| == |befores| && AllAnswer(ranges, replies) &&
    forall k | 0 <= k < |ranges| :: |befores[k]| == 2 * ranges[k].size
  }

  lemma AtStart(ranges: seq<Range>, replies: seq<Option<string>>, befores: seq<string>)
    requires |replies| == |ranges| == |befores| && AllAnswer(ranges, replies)
    requires forall k | 0 <= k < |ranges| :: |befores[k]| == 2 * ranges[k].size
    ensures ranges[0..] == ranges && replies[0..] == replies && befores[0..] == befores
    ensures Answering(ranges, replies, befores)
  {
  }

  const EMPTY := Output("", 1, [], [])

  function FieldsUnder(ranges: seq<Range>): set<Field> {
    if ranges == [] then {} else FieldsIn(ranges[0].sections) + FieldsUnder(ranges[1..])
  }

  function RegistersUnder(ranges: seq<Range>): set<Register> {
    if ranges == [] then {} else RegistersIn(ranges[0].sections) + RegistersUnder(ranges[1..])
  }

  function SectionsUnder(ranges: seq<Range>): set<Section> {
    if ranges == [] then {} else (set s | s in ranges[0].sections) + SectionsUnder(ranges[1..])
  }

  /** The fields on show. */
  function TouchedUnder(ranges: seq<Range>): (r: set<Field>)
    reads SectionsUnder(ranges)`expanded
    ensures r <= FieldsUnder(ranges)
  {
    if ranges == [] then {} else TouchedIn(ranges[0].sections) + TouchedUnder(ranges[1..])
  }

  ghost predicate RangesApart(ranges: seq<Range>) {
    ranges == [] ||
    (SecsApart(ranges[0].sections) && FieldsIn(ranges[0].sections) !! FieldsUnder(ranges[1..]) && RangesApart(ranges[1..]))
  }

  ghost predicate AllAnswer(ranges: seq<Range>, replies: seq<Option<string>>)
    requires |replies| == |ranges|
  {
    forall k | 0 <= k < |ranges| :: Answers(ranges[k], replies[k])
  }

  ghost function Befores(ranges: seq<Range>): (r: seq<string>)
    requires forall g <- ranges :: g.Read()
    reads ranges, (set g | g in ranges :: g.content)
    ensures |r| == |ranges| && forall k | 0 <= k < |r| :: r[k] == Before(ranges[k])
  {
    if ranges == [] then [] else Befores(ranges[..|ranges| - 1]) + [Before(ranges[|ranges| - 1])]
  }

  /** The lines of all ranges before the first one that cannot be read. */
  ghost function AllItems(ranges: seq<Range>, replies: seq<Option<string>>, befores: seq<string>, endian: Endian): seq<Item>
    requires |replies| == |ranges| == |befores| && AllAnswer(ranges, replies)
    requires forall k | 0 <= k < |ranges| :: |befores[k]| == 2 * ranges[k].size
    reads SectionsUnder(ranges)`expanded, RegistersUnder(ranges)`name, FieldsUnder(ranges)`value
  {
    if ranges == [] || replies[0] == None then []
    else
      RangeItems(ranges[0], replies[0], befores[0], endian) + AllItems(ranges[1..], replies[1..], befores[1..], endian)
  }

  /** gdb's answer covers the range with digits, and all registers lie inside. */
  ghost predicate Answers(range: Range, reply: Option<string>) {
    reply.Some? ==> |reply.value| == 2 * range.size && N.IsHex(reply.value) && SecsInside(range.sections, |reply.value|)
  }

  /** The content without its terminator. */
  ghost function Before(range: Range): (r: string)
    requires range.Read()
    reads range, range.content
    ensures |r| == 2 * range.size
  {
    range.content[..2 * range.size]
  }

  ghost function RangeItems(range: Range, reply: Option<string>, before: string, endian: Endian): seq<Item>
    requires Answers(range, reply) && |before| == 2 * range.size
    reads (set s | s in range.sections)`expanded, RegistersIn(range.sections)`name, FieldsIn(range.sections)`value
  {
    if reply.Some? then SecsItems(range.sections, reply.value, before, endian) else []
  }

  /** After a refresh the content is exactly what gdb delivered, and the fields hold what was printed. */
  ghost predicate Refreshed(range: Range, now: string, endian: Endian)
    requires Answers(range, Some(now))
    reads range, range.content, (set s | s in range.sections)`expanded, TouchedIn(range.sections)`value
  {
    Holds(range.content, now) && SecsHold(range.sections, now, endian)
  }

  lemma SecsInsideAt(secs: seq<Section>, n: nat)
    requires SecsInside(secs, n)
    ensures forall k | 0 <= k < |secs| :: AllInside(secs[k].regs, n)
  {
  }

  lemma SecsUnfold(secs: seq<Section>, i: nat, now: string, before: string, endian: Endian)
    requires i <= |secs| && SecsApart(secs[i..]) && SecsInside(secs, |now|) && |before| == |now| && N.IsHex(now)
    ensures i < |secs| ==>
              && RegsApart(secs[i].regs) && SecsApart(secs[i + 1..]) && SecsInside(secs[i + 1..], |now|)
              && FieldsOf(secs[i].regs) !! FieldsIn(secs[i + 1..])
              && Touched(secs[i]) <= FieldsOf(secs[i].regs) && TouchedIn(secs[i + 1..]) <= FieldsIn(secs[i + 1..])
              && SecsItems(secs[i..], now, before, endian) ==
                 SectionItems(secs[i], now, before, endian) + SecsItems(secs[i + 1..], now, before, endian)
              && FieldsIn(secs[i..]) == FieldsOf(secs[i].regs) + FieldsIn(secs[i + 1..])
              && TouchedIn(secs[i..]) == Touched(secs[i]) + TouchedIn(secs[i + 1..])
              && RegistersIn(secs[i + 1..]) <= RegistersIn(secs[i..])
    ensures i == |secs| ==> SecsItems(secs[i..], now, before, endian) == []
  {
    hide SectionItems, FieldsOf, RegsApart, Touched;
    if i < |secs| {
      assert secs[i..][0] == secs[i] && secs[i..][1..] == secs[i + 1..];
    }
  }

  lemma SectionParts(sec: Section, now: string, before: string, endian: Endian)
    requires AllInside(sec.regs, |now|) && |before| == |now| && N.IsHex(now)
    ensures SectionItems(sec, now, before, endian) ==
            [Header(sec)] + (if sec.expanded then RegsItems(sec.regs, now, before, endian) else []) + [BLANK]
    ensures Touched(sec) == if sec.expanded then FieldsOf(sec.regs) else {}
    ensures forall k | 0 <= k < |sec.regs| :: Inside(sec.regs[k], |now|)
    ensures SectionHolds(sec, now, endian) <==>
            (sec.expanded ==> forall k | 0 <= k < |sec.regs| :: FieldsHold(sec.regs[k], now, endian))
  {
    hide RegsItems, Header, FieldsHold;
  }

  lemma CellOf(reg: Register, content: string)
    requires 2 * (reg.offset + reg.nbytes) <= |content|
    ensures Cell(reg, content) == content[reg.offset * 2..reg.offset * 2 + reg.nbytes * 2]
  {
  }

  lemma RegsUnfold(regs: seq<Register>, i: nat, now: string, before: string, endian: Endian)
    requires i <= |regs| && RegsApart(regs[i..]) && AllInside(regs, |now|) && |before| == |now| && N.IsHex(now)
    ensures i < |regs| ==>
              && NoDup(regs[i].bits) && RegsApart(regs[i + 1..]) && Fields(regs[i]) !! FieldsOf(regs[i + 1..])
              && RegsItems(regs[i..], now, before, endian) ==
                 RegItems(regs[i], now, before, endian) + RegsItems(regs[i + 1..], now, before, endian)
              && FieldsOf(regs[i..]) == Fields(regs[i]) + FieldsOf(regs[i + 1..])
    ensures i == |regs| ==> RegsItems(regs[i..], now, before, endian) == []
  {
    hide RegItems, NoDup, Fields;
    if i < |regs| {
      assert regs[i..][0] == regs[i] && regs[i..][1..] == regs[i + 1..];
    }
  }

  lemma AfterReg(item: Item, a: Output, reg: Register)
    requires item.tag == Some(Reg(reg))
    ensures After(item, a) == Output(a.text + (item.text + "\n"), a.line + 1, a.secs, a.regs + [B.Entry(a.line, reg)])
  {
  }

  lemma NoFields(bits: seq<Field>, was: seq<nat>, reg: nat)
    requires |bits| == |was|
    ensures FieldsUpTo(bits, was, 0, reg) == "" && Finished(0) == 0
  {
  }

  lemma PlainFields(bits: seq<Field>, was: seq<nat>, reg: nat)
    requires 0 < |bits| == |was|
    ensures var items := FieldLines(bits, was, reg) + [BLANK];
            (forall k | 0 <= k < |items| :: items[k].tag == None) &&
            |items| == Finished(|bits|) + 2 &&
            L.Render(items) == FieldsUpTo(bits, was, |bits|, reg) + "\n\n"
  {
    hide FieldsUpTo, Pieces;
    AllFields(bits, was, reg);
    var items := FieldLines(bits, was, reg) + [BLANK];
    assert items[..|items| - 1] == FieldLines(bits, was, reg);
  }

  lemma RegItemsParts(reg: Register, now: string, before: string, endian: Endian)
    requires Inside(reg, |now|) && |before| == |now| && N.IsHex(now)
    ensures reg.nbytes == 0 ==>
              RegItems(reg, now, before, endian) == [L.Item(" " + Title(reg, "h1"), Some(Reg(reg)))]
    ensures reg.nbytes > 0 ==>
              2 * (reg.offset + reg.nbytes) <= |now| && N.IsHex(Presented(reg, now, endian)) &&
              RegItems(reg, now, before, endian) ==
              [L.Item("  " + Title(reg, "h2") + " = "
                      + B.Marked(Presented(reg, now, endian), Cell(reg, now) != Cell(reg, before)), Some(Reg(reg)))]
              + BitItems(reg, Presented(reg, now, endian))
    ensures FieldsHold(reg, now, endian) <==>
            (reg.nbytes > 0 ==>
               forall f <- reg.bits :: f.value == FieldValue(ReadHex(Presented(reg, now, endian)), f.mask, f.idx))
  {
    hide BitItems, Title, B.Marked, FieldValue;
  }

  lemma CellIs(reg: Register, content: array<char>, contentOld: array<char>, now: string, before: string)
    requires Holds(content, now) && HeldBefore(contentOld, before) && |before| == |now|
    requires 2 * (reg.offset + reg.nbytes) <= |now|
    ensures var from, len := reg.offset * 2, reg.nbytes * 2;
            content.Length == |now| + 1 && contentOld.Length > |now| &&
            content[from..from + len] == Cell(reg, now) == now[from..from + len] &&
            contentOld[from..from + len] == Cell(reg, before)
  {
    var from, len := reg.offset * 2, reg.nbytes * 2;
    HeldCell(content, now, from, len);
    assert contentOld[..|before|][from..from + len] == contentOld[from..from + len];
  }

  lemma FieldsHoldIs(reg: Register, now: string, endian: Endian)
    requires Inside(reg, |now|) && N.IsHex(now)
    ensures FieldsHold(reg, now, endian) <==>
            (reg.nbytes > 0 ==>
               forall f <- reg.bits :: f.value == FieldValue(ReadHex(Presented(reg, now, endian)), f.mask, f.idx))
  {
    hide FieldValue;
  }

  /** After the first swap the cell shows what is presented, and the second swap restores the content. */
  lemma PresentedIs(reg: Register, now: string, endian: Endian)
    requires 2 * (reg.offset + reg.nbytes) <= |now|
    ensures var from, len := reg.offset * 2, reg.nbytes * 2;
            var cell := Cell(reg, now);
            var held := Patched(now, from, Swapped(cell));
            cell == now[from..from + len] &&
            (ByteSwap(reg.opt, endian) ==> held[from..from + len] == Presented(reg, now, endian)) &&
            (!ByteSwap(reg.opt, endian) ==> now[from..from + len] == Presented(reg, now, endian)) &&
            Patched(held, from, Swapped(held[from..from + len])) == now
  {
    hide *;
    var from, cell := reg.offset * 2, Cell(reg, now);
    CellOf(reg, now);
    PatchedBack(now, from, Swapped(cell));
    SwapTwice(cell);
    PresentedUnfold(reg, now, endian);
  }

  lemma PresentedUnfold(reg: Register, now: string, endian: Endian)
    requires 2 * (reg.offset + reg.nbytes) <= |now|
    ensures Presented(reg, now, endian) ==
            if ByteSwap(reg.opt, endian) then Swapped(Cell(reg, now)) else Cell(reg, now)
  {
    hide Cell, Swapped, ByteSwap, N.IsHex;
  }

  lemma RangesUnfold(ranges: seq<Range>, i: nat, replies: seq<Option<string>>, befores: seq<string>, endian: Endian, own: Parts)
    requires i <= |ranges| && RangesApart(ranges[i..]) && Owns(own, ranges[i..])
    requires |replies| == |ranges| == |befores| && Answering(ranges[i..], replies[i..], befores[i..])
    ensures i < |ranges| ==>
              && SecsApart(ranges[i].sections) && RangesApart(ranges[i + 1..])
              && Answering(ranges[i + 1..], replies[i + 1..], befores[i + 1..]) && Owns(own, ranges[i + 1..])
              && Answers(ranges[i], replies[i]) && |befores[i]| == 2 * ranges[i].size
              && FieldsIn(ranges[i].sections) !! FieldsUnder(ranges[i + 1..])
              && TouchedUnder(ranges[i + 1..]) <= FieldsUnder(ranges[i + 1..])
              && TouchedIn(ranges[i].sections) <= FieldsIn(ranges[i].sections) <= own.fields
              && RegistersIn(ranges[i].sections) <= own.registers
              && AllItems(ranges[i..], replies[i..], befores[i..], endian) ==
                 RangeItems(ranges[i], replies[i], befores[i], endian) +
                 (if replies[i].Some? then AllItems(ranges[i + 1..], replies[i + 1..], befores[i + 1..], endian) else [])
              && FieldsUnder(ranges[i..]) == FieldsIn(ranges[i].sections) + FieldsUnder(ranges[i + 1..])
              && TouchedUnder(ranges[i..]) == TouchedIn(ranges[i].sections) + TouchedUnder(ranges[i + 1..])
    ensures i == |ranges| ==> AllItems(ranges[i..], replies[i..], befores[i..], endian) == []
  {
    hide Answers, RegistersIn, FieldsIn, SecsApart, TouchedIn, SecsItems;
    if i < |ranges| {
      assert ranges[i..][0] == ranges[i] && ranges[i..][1..] == ranges[i + 1..];
      assert replies[i..][0] == replies[i] && replies[i..][1..] == replies[i + 1..];
      assert befores[i..][0] == befores[i] && befores[i..][1..] == befores[i + 1..];
      AnsweringFirst(ranges[i..], replies[i..], befores[i..]);
    }
  }

  lemma AnsweringFirst(ranges: seq<Range>, replies: seq<Option<string>>, befores: seq<string>)
    requires Answering(ranges, replies, befores) && ranges != []
    ensures Answers(ranges[0], replies[0]) && |befores[0]| == 2 * ranges[0].size
    ensures Answering(ranges[1..], replies[1..], befores[1..])
  {
    hide Answers;
  }

  // ----- where screen lines lead -----

  /**
   * After a refresh every line counted leads to the section and to the register it belongs to: its own, or the last one
   * above it. The counter is in step with the lines written exactly if no item holds a newline, and short otherwise.
   */
  lemma LinesLeadToObjects(items: seq<Item>, out: Output)
    requires Prints(items, EMPTY, out)
    ensures out.line == 1 + |items| <= 1 + B.Newlines(out.text)
    ensures out.line == 1 + B.Newlines(out.text) <==> L.Plain(items)
    ensures forall k | 0 <= k < |items| ::
              B.Lookup(out.secs, 1 + k) == L.Owner(SecsOf(items), k) &&
              B.Lookup(out.regs, 1 + k) == L.Owner(RegsOf(items), k)
  {
    hide L.Printed, L.Owner, L.Render;
    L.LinesLeadBack(SecsOf(items), out.text, out.line, out.secs);
    L.LinesLeadBack(RegsOf(items), out.text, out.line, out.regs);
  }

  // ----- newlines and percent signs -----

  /** The characters that come from names and descriptions only. */
  predicate Foreign(c: char) {
    c == '\n' || c == '%'
  }

  /** A register on show does not show `c`: name, description and, unless it is a headline, the names of its fields. */
  predicate RegWithout(reg: Register, c: char)
    reads reg`name
  {
    c !in reg.name && c !in reg.desc && (reg.nbytes > 0 ==> forall f <- reg.bits :: c !in f.name)
  }

  predicate RegsWithout(regs: seq<Register>, c: char)
    reads (set r | r in regs)`name
  {
    forall r <- regs :: RegWithout(r, c)
  }

  /** Of a folded section only the name is on show. */
  predicate SecWithout(sec: Section, c: char)
    reads sec`expanded, (set r | r in sec.regs)`name
  {
    c !in sec.name && (sec.expanded ==> RegsWithout(sec.regs, c))
  }

  predicate SecsWithout(secs: seq<Section>, c: char)
    reads (set s | s in secs)`expanded, RegistersIn(secs)`name
  {
    secs == [] || (SecWithout(secs[0], c) && SecsWithout(secs[1..], c))
  }

  /** None of the names on show holds `c`: those of the ranges before the first one that cannot be read. */
  predicate ViewWithout(ranges: seq<Range>, replies: seq<Option<string>>, c: char)
    requires |replies| == |ranges|
    reads SectionsUnder(ranges)`expanded, RegistersUnder(ranges)`name
  {
    ranges == [] || replies[0] == None || (SecsWithout(ranges[0].sections, c) && ViewWithout(ranges[1..], replies[1..], c))
  }

  lemma NoForeignHex(v: nat, precision: nat, c: char)
    requires Foreign(c)
    ensures c !in HexPrec(v, precision)
  {
    hide N.IsHex, N.Digits;
    N.DigitsPlain(v, 16);
    N.HexPlain(N.Digits(v, 16));
    NoForeignPad(N.Digits(v, 16), precision, c);
  }

  lemma NoForeignPad(s: string, width: nat, c: char)
    requires Foreign(c) && c !in s
    ensures c !in N.Pad(s, width, '0')
  {
  }

  lemma NoForeignMarked(s: string, modified: bool, c: char)
    requires Foreign(c) && c !in s
    ensures c !in B.Marked(s, modified)
  {
  }

  lemma CharsOfPiece(bits: seq<Field>, was: seq<nat>, k: nat, reg: nat, c: char)
    requires Foreign(c) && k < |bits| == |was|
    ensures c in Piece(bits, was, k, reg) <==> c in bits[k].name
  {
    hide FieldValue, HexPrec, B.Marked;
    var v := FieldValue(reg, bits[k].mask, bits[k].idx);
    var digits := HexPrec(v, (bits[k].nbits + 3) / 4);
    NoForeignHex(v, (bits[k].nbits + 3) / 4, c);
    NoForeignMarked(digits, v != was[k], c);
    CharsAround("   " + MARK + "h3", bits[k].name, "`h3 " + B.Marked(digits, v != was[k]), c);
    PieceIs(bits, was, k, reg);
  }

  lemma PieceIs(bits: seq<Field>, was: seq<nat>, k: nat, reg: nat)
    requires k < |bits| == |was|
    ensures var v := FieldValue(reg, bits[k].mask, bits[k].idx);
            Piece(bits, was, k, reg) ==
            "   " + MARK + "h3" + bits[k].name + ("`h3 " + B.Marked(HexPrec(v, (bits[k].nbits + 3) / 4), v != was[k]))
  {
    hide FieldValue, HexPrec, B.Marked;
  }

  lemma CharsAround(a: string, b: string, d: string, c: char)
    requires c !in a && c !in d
    ensures c in a + b + d <==> c in b
  {
  }

  lemma {:induction false} CharsOfPieces(bits: seq<Field>, was: seq<nat>, lo: nat, hi: nat, reg: nat, c: char)
    requires Foreign(c) && lo <= hi <= |bits| == |was|
    ensures c !in Pieces(bits, was, lo, hi, reg) <==> forall k | lo <= k < hi :: c !in bits[k].name
    decreases hi
  {
    hide Piece;
    if lo < hi {
      CharsOfPieces(bits, was, lo, hi - 1, reg, c);
      CharsOfPiece(bits, was, hi - 1, reg, c);
    }
  }

  lemma CharsOfFieldLines(bits: seq<Field>, was: seq<nat>, reg: nat, c: char)
    requires Foreign(c) && |bits| == |was|
    ensures L.Without(FieldLines(bits, was, reg), c) <==> forall f <- bits :: c !in f.name
  {
    hide Pieces;
    var lines := FieldLines(bits, was, reg);
    forall k | 0 <= k < |lines|
      ensures c !in lines[k].text <==> forall i | 4 * k <= i < Min(4 * k + 4, |bits|) :: c !in bits[i].name
    {
      CharsOfPieces(bits, was, 4 * k, Min(4 * k + 4, |bits|), reg, c);
    }
    if L.Without(lines, c) {
      forall i | 0 <= i < |bits|
        ensures c !in bits[i].name
      {
        assert c !in lines[i / 4].text;
      }
    }
  }

  lemma CharsOfTitle(reg: Register, style: string, c: char)
    requires Foreign(c) && c !in style
    ensures c in Title(reg, style) <==> c in reg.name || c in reg.desc
  {
    var desc := if reg.desc != "" then " - " + reg.desc else "";
    CharsAround(MARK + style, reg.name + desc, "`" + style, c);
    assert Title(reg, style) == MARK + style + (reg.name + desc) + ("`" + style);
  }

  lemma CharsOfBits(reg: Register, shown: string, c: char)
    requires Foreign(c) && N.IsHex(shown)
    ensures L.Without(BitItems(reg, shown), c) <==> forall f <- reg.bits :: c !in f.name
  {
    hide FieldLines, ReadHex, N.IsHex, L.Without;
    if reg.bits == [] {
      L.NoItems<Tag>(c);
    } else {
      var lines := FieldLines(reg.bits, Values(reg.bits), ReadHex(shown));
      CharsOfFieldLines(reg.bits, Values(reg.bits), ReadHex(shown), c);
      L.WithoutConcat(lines, [BLANK], c);
      L.WithoutOne(BLANK, c);
    }
  }

  /** Content is digits, so only names and descriptions can bring such a character into the lines of a register. */
  lemma CharsOfRegister(reg: Register, now: string, before: string, endian: Endian, c: char)
    requires Foreign(c) && Inside(reg, |now|) && |before| == |now| && N.IsHex(now)
    ensures L.Without(RegItems(reg, now, before, endian), c) <==> RegWithout(reg, c)
  {
    hide RegItems, BitItems, Title, B.Marked, Cell, Presented, Inside, N.IsHex, L.Without;
    RegItemsParts(reg, now, before, endian);
    CharsOfTitle(reg, "h1", c);
    CharsOfTitle(reg, "h2", c);
    if reg.nbytes == 0 {
      var item := L.Item(" " + Title(reg, "h1"), Some(Reg(reg)));
      CharsAround(" ", Title(reg, "h1"), "", c);
      assert item.text == " " + Title(reg, "h1") + "";
      L.WithoutOne(item, c);
    } else {
      var shown, modified := Presented(reg, now, endian), Cell(reg, now) != Cell(reg, before);
      var item := L.Item("  " + Title(reg, "h2") + " = " + B.Marked(shown, modified), Some(Reg(reg)));
      N.HexPlain(shown);
      NoForeignMarked(shown, modified, c);
      CharsAround("  ", Title(reg, "h2"), " = " + B.Marked(shown, modified), c);
      assert item.text == "  " + Title(reg, "h2") + (" = " + B.Marked(shown, modified));
      L.WithoutOne(item, c);
      CharsOfBits(reg, shown, c);
      L.WithoutConcat([item], BitItems(reg, shown), c);
    }
  }

  lemma {:induction false} CharsOfRegisters(regs: seq<Register>, now: string, before: string, endian: Endian, c: char)
    requires Foreign(c) && AllInside(regs, |now|) && |before| == |now| && N.IsHex(now)
    ensures L.Without(RegsItems(regs, now, before, endian), c) <==> RegsWithout(regs, c)
  {
    hide RegItems, RegWithout, L.Without, Inside, N.IsHex;
    if regs == [] {
      L.NoItems<Tag>(c);
    } else {
      assert regs == [regs[0]] + regs[1..];
      CharsOfRegister(regs[0], now, before, endian, c);
      CharsOfRegisters(regs[1..], now, before, endian, c);
      L.WithoutConcat(RegItems(regs[0], now, before, endian), RegsItems(regs[1..], now, before, endian), c);
    }
  }

  lemma CharsOfHeader(sec: Section, c: char)
    requires Foreign(c)
    ensures c in Header(sec).text <==> c in sec.name
  {
    var front := "[" + (if sec.expanded then "-" else "+") + "] " + MARK + "h0";
    CharsAround(front, sec.name, "`h0", c);
  }

  lemma CharsOfSection(sec: Section, now: string, before: string, endian: Endian, c: char)
    requires Foreign(c) && AllInside(sec.regs, |now|) && |before| == |now| && N.IsHex(now)
    ensures L.Without(SectionItems(sec, now, before, endian), c) <==> SecWithout(sec, c)
  {
    hide RegsItems, RegsWithout, Header, AllInside, N.IsHex, L.Without;
    var header, regs := Header(sec), if sec.expanded then RegsItems(sec.regs, now, before, endian) else [];
    CharsOfHeader(sec, c);
    L.WithoutOne(header, c);
    L.WithoutOne(BLANK, c);
    L.NoItems<Tag>(c);
    if sec.expanded {
      CharsOfRegisters(sec.regs, now, before, endian, c);
    }
    L.WithoutConcat([header], regs, c);
    L.WithoutConcat([header] + regs, [BLANK], c);
  }

  lemma {:induction false} CharsOfSections(secs: seq<Section>, now: string, before: string, endian: Endian, c: char)
    requires Foreign(c) && SecsInside(secs, |now|) && |before| == |now| && N.IsHex(now)
    ensures L.Without(SecsItems(secs, now, before, endian), c) <==> SecsWithout(secs, c)
  {
    hide SectionItems, SecWithout, AllInside, N.IsHex, L.Without;
    if secs == [] {
      L.NoItems<Tag>(c);
    } else {
      CharsOfSection(secs[0], now, before, endian, c);
      CharsOfSections(secs[1..], now, before, endian, c);
      L.WithoutConcat(SectionItems(secs[0], now, before, endian), SecsItems(secs[1..], now, before, endian), c);
    }
  }

  /** A view is without newlines, or percent signs, exactly if all names and descriptions on show are. */
  lemma {:induction false} CharsOfView(ranges: seq<Range>, replies: seq<Option<string>>, befores: seq<string>, endian: Endian,
                                       c: char)
    requires Foreign(c) && Answering(ranges, replies, befores)
    ensures L.Without(AllItems(ranges, replies, befores, endian), c) <==> ViewWithout(ranges, replies, c)
  {
    hide SecsItems, SecsWithout, SecsInside, N.IsHex, L.Without;
    if ranges == [] || replies[0] == None {
      L.NoItems<Tag>(c);
    } else {
      AnsweringFirst(ranges, replies, befores);
      var now := replies[0].value;
      CharsOfSections(ranges[0].sections, now, befores[0], endian, c);
      CharsOfView(ranges[1..], replies[1..], befores[1..], endian, c);
      L.WithoutConcat(RangeItems(ranges[0], replies[0], befores[0], endian),
                      AllItems(ranges[1..], replies[1..], befores[1..], endian), c);
    }
  }

  /** The line counter, and what the window shows of a text. */
  lemma ViewIs(items: seq<Item>, out: Output)
    requires Prints(items, EMPTY, out)
    ensures out.line == 1 + B.Newlines(out.text) <==> L.Without(items, '\n')
    ensures B.Formatted(out.text) == Some(out.text) <==> L.Without(items, '%')
  {
    hide Prints, L.Render, L.Without, B.Formatted, B.Newlines;
    LinesLeadToObjects(items, out);
    PrintedText(items, out);
    L.RenderedChars(items, '%');
    B.FormattedIsText(out.text);
  }

  /**
   * The whole view: the line counter is in step with the text exactly if no name or description on show holds a newline,
   * and the window shows the text as it is exactly if none holds a percent sign.
   */
  lemma PlainView(ranges: seq<Range>, replies: seq<Option<string>>, befores: seq<string>, endian: Endian, out: Output)
    requires Answering(ranges, replies, befores) && Prints(AllItems(ranges, replies, befores, endian), EMPTY, out)
    ensures out.line == 1 + B.Newlines(out.text) <==> ViewWithout(ranges, replies, '\n')
    ensures B.Formatted(out.text) == Some(out.text) <==> ViewWithout(ranges, replies, '%')
  {
    hide AllItems, Prints, ViewWithout, Answers, L.Without, B.Formatted, B.Newlines;
    ViewIs(AllItems(ranges, replies, befores, endian), out);
    CharsOnShow(ranges, replies, befores, endian);
  }

  lemma CharsOnShow(ranges: seq<Range>, replies: seq<Option<string>>, befores: seq<string>, endian: Endian)
    requires Answering(ranges, replies, befores)
    ensures L.Without(AllItems(ranges, replies, befores, endian), '\n') <==> ViewWithout(ranges, replies, '\n')
    ensures L.Without(AllItems(ranges, replies, befores, endian), '%') <==> ViewWithout(ranges, replies, '%')
  {
    hide AllItems, ViewWithout, Answers, L.Without;
    CharsOfView(ranges, replies, befores, endian, '\n');
    CharsOfView(ranges, replies, befores, endian, '%');
  }

  lemma PrintedText(items: seq<Item>, out: Output)
    requires Prints(items, EMPTY, out)
    ensures out.text == L.Render(items)
  {
    hide L.Render, L.Entries;
    SameRender(items, SecsOf(items));
  }

  // ----- the objects behind the lines -----

  predicate TagsWithin(items: seq<Item>, secs: set<Section>, regs: set<Register>) {
    forall item <- items :: match item.tag
      case Some(Sec(sec)) => sec in secs
      case Some(Reg(reg)) => reg in regs
      case None => true
  }

  lemma TagsThen(a: seq<Item>, b: seq<Item>, secs: set<Section>, regs: set<Register>)
    requires TagsWithin(a, secs, regs) && TagsWithin(b, secs, regs)
    ensures TagsWithin(a + b, secs, regs)
  {
  }

  lemma TagsMore(items: seq<Item>, secs: set<Section>, regs: set<Register>, secs': set<Section>, regs': set<Register>)
    requires TagsWithin(items, secs, regs) && secs <= secs' && regs <= regs'
    ensures TagsWithin(items, secs', regs')
  {
  }

  lemma TagsOfRegister(reg: Register, now: string, before: string, endian: Endian)
    requires Inside(reg, |now|) && |before| == |now| && N.IsHex(now)
    ensures TagsWithin(RegItems(reg, now, before, endian), {}, {reg})
  {
    hide N.IsHex, Inside, Title, B.Marked, Cell, Presented, Pieces, Values, ReadHex;
  }

  lemma {:induction false} TagsOfRegisters(regs: seq<Register>, now: string, before: string, endian: Endian)
    requires AllInside(regs, |now|) && |before| == |now| && N.IsHex(now)
    ensures TagsWithin(RegsItems(regs, now, before, endian), {}, (set r | r in regs))
  {
    hide N.IsHex, Inside, RegItems, TagsWithin;
    if regs == [] {
      NoTags({}, set r | r in regs);
    } else {
      var reg, rest := regs[0], regs[1..];
      var all := set r | r in regs;
      assert reg in regs && forall r <- rest :: r in regs;
      TagsOfRegister(reg, now, before, endian);
      TagsOfRegisters(rest, now, before, endian);
      TagsMore(RegItems(reg, now, before, endian), {}, {reg}, {}, all);
      TagsMore(RegsItems(rest, now, before, endian), {}, (set r | r in rest), {}, all);
      TagsThen(RegItems(reg, now, before, endian), RegsItems(rest, now, before, endian), {}, all);
    }
  }

  lemma NoTags(secs: set<Section>, regs: set<Register>)
    ensures TagsWithin([], secs, regs) && TagsWithin([BLANK], secs, regs)
  {
  }

  lemma {:induction false} TagsOfSections(secs: seq<Section>, now: string, before: string, endian: Endian)
    requires SecsInside(secs, |now|) && |before| == |now| && N.IsHex(now)
    ensures TagsWithin(SecsItems(secs, now, before, endian), (set s | s in secs), RegistersIn(secs))
  {
    hide N.IsHex, RegsItems, AllInside;
    if secs != [] {
      var sec := secs[0];
      assert sec in secs && forall s <- secs[1..] :: s in secs;
      if sec.expanded {
        TagsOfRegisters(sec.regs, now, before, endian);
      }
      TagsOfSections(secs[1..], now, before, endian);
    }
  }

  /** Every line of a view stands for a section or register of its ranges, or for nothing. */
  lemma {:induction false} TagsOfView(ranges: seq<Range>, replies: seq<Option<string>>, befores: seq<string>, endian: Endian)
    requires Answering(ranges, replies, befores)
    ensures TagsWithin(AllItems(ranges, replies, befores, endian), SectionsUnder(ranges), RegistersUnder(ranges))
  {
    hide N.IsHex, SecsItems, SecsInside;
    if ranges != [] && replies[0].Some? {
      AnsweringFirst(ranges, replies, befores);
      TagsOfSections(ranges[0].sections, replies[0].value, befores[0], endian);
      TagsOfView(ranges[1..], replies[1..], befores[1..], endian);
    }
  }
}

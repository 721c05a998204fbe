/** `cmd_memory_update` over the list of segments, and the line map that leads from a screen line to its segment. */
module MemoryView {
  import opened Options
  import opened MemoryDump
  import B = Buffers
  import N = Numbers

  class Segment {
    const begin: nat
    const length: nat
    const alignment: nat
    var expanded: bool
    var content: string
    var contentOld: string

    constructor (begin: nat, length: nat, alignment: nat, content: string)
      ensures this.begin == begin && this.length == length && this.alignment == alignment && expanded
      ensures this.content == content && contentOld == ""
    {
      this.begin, this.length, this.alignment, this.content := begin, length, alignment, content;
      contentOld, expanded := "", true;
    }

    /** gdb's answer to a read of the whole segment. */
    predicate Fits(bytes: string) {
      |bytes| == 2 * length && N.IsHex(bytes)
    }

    function Now(): Snap
      reads this
    {
      Snap(begin, length, alignment, expanded, content, contentOld)
    }

    /** `gdb_memory_t::update`: the old content is kept to mark what changed. */
    method Update(reply: Option<string>) returns (r: int)
      modifies `content, `contentOld
      ensures r == if reply == None then -1 else 0
      ensures if reply == None then content == old(content) && contentOld == old(contentOld)
              else content == reply.value && contentOld == old(content)
    {
      if reply == None {
        return -1;
      }
      contentOld := content;
      content := reply.value;
      return 0;
    }
  }

  /** The text of the window. */
  function Blocks(snaps: seq<Snap>): string
    requires forall s <- snaps :: s.Ok()
  {
    if snaps == [] then "" else Blocks(snaps[..|snaps| - 1]) + Block(snaps[|snaps| - 1])
  }

  /** The screen line on which the block behind `snaps` starts. */
  function LineAfter(snaps: seq<Snap>): nat
    requires forall s <- snaps :: s.Ok()
  {
    if snaps == [] then 1 else LineAfter(snaps[..|snaps| - 1]) + BlockLines(snaps[|snaps| - 1])
  }

  lemma OneMoreBlock(snaps: seq<Snap>, s: Snap)
    requires (forall t <- snaps :: t.Ok()) && s.Ok()
    ensures forall t <- snaps + [s] :: t.Ok()
    ensures Blocks(snaps + [s]) == Blocks(snaps) + Block(s)
    ensures LineAfter(snaps + [s]) == LineAfter(snaps) + BlockLines(s) > LineAfter(snaps)
  {
    hide Block;
    assert (snaps + [s])[..|snaps + [s]| - 1] == snaps;
  }

  /** The line map has one entry per segment, at the first line of its block. */
  ghost predicate Maps(m: seq<B.Entry<Segment>>, segments: seq<Segment>, snaps: seq<Snap>)
    requires forall s <- snaps :: s.Ok()
  {
    |m| == |snaps| <= |segments| &&
    forall k | 0 <= k < |m| :: m[k] == B.Entry(LineAfter(snaps[..k]), segments[k])
  }

  lemma MapsMore(m: seq<B.Entry<Segment>>, segments: seq<Segment>, snaps: seq<Snap>, s: Snap)
    requires (forall t <- snaps :: t.Ok()) && s.Ok() && Maps(m, segments, snaps) && |snaps| < |segments|
    ensures forall t <- snaps + [s] :: t.Ok()
    ensures Maps(m + [B.Entry(LineAfter(snaps), segments[|snaps|])], segments, snaps + [s])
  {
    hide LineAfter;
    var more := snaps + [s];
    forall k | 0 <= k <= |snaps|
      ensures more[..k] == snaps[..k]
    {
    }
    assert snaps[..|snaps|] == snaps;
  }

  lemma {:induction false} LinesIncrease(snaps: seq<Snap>, i: nat, j: nat)
    requires (forall s <- snaps :: s.Ok()) && i < j <= |snaps|
    ensures LineAfter(snaps[..i]) < LineAfter(snaps[..j])
    decreases j
  {
    var p := snaps[..j];
    assert p[..|p| - 1] == snaps[..j - 1];
    assert BlockLines(p[|p| - 1]) > 0;
    if i < j - 1 {
      LinesIncrease(snaps, i, j - 1);
    }
  }

  lemma {:induction false} LineCount(snaps: seq<Snap>)
    requires forall s <- snaps :: s.Ok()
    ensures LineAfter(snaps) == 1 + B.Newlines(Blocks(snaps))
    decreases |snaps|
  {
    hide Block, BlockLines;
    if snaps != [] {
      var n := |snaps| - 1;
      LineCount(snaps[..n]);
      BlockPlain(snaps[n]);
      B.NewlinesConcat(Blocks(snaps[..n]), Block(snaps[n]));
    }
  }

  /** Every screen line of a block leads to its segment, and the blocks cover all lines of the text. */
  lemma LinesLeadToSegments(m: seq<B.Entry<Segment>>, segments: seq<Segment>, snaps: seq<Snap>, k: nat, line: nat)
    requires (forall s <- snaps :: s.Ok()) && Maps(m, segments, snaps) && k < |snaps|
    requires LineAfter(snaps[..k]) <= line < LineAfter(snaps[..k + 1])
    ensures B.Lookup(m, line) == Some(segments[k])
    ensures LineAfter(snaps[..0]) == 1 && LineAfter(snaps[..|snaps|]) == 1 + B.Newlines(Blocks(snaps))
  {
    hide LineAfter, Blocks;
    forall i, j | 0 <= i < j < |m|
      ensures m[i].line < m[j].line
    {
      LinesIncrease(snaps, i, j);
    }
    B.LookupBlock(m, line, k);
    LineCount(snaps);
    FirstLine(snaps);
  }

  /**
   * After a failed read, lines lead to the segments before the failing one only: to none if there are none, and from the
   * start of the last one's block on to that one, whatever the window still shows there.
   */
  lemma LinesAfterFailure(m: seq<B.Entry<Segment>>, segments: seq<Segment>, snaps: seq<Snap>, line: nat)
    requires (forall s <- snaps :: s.Ok()) && Maps(m, segments, snaps)
    ensures snaps == [] ==> B.Lookup(m, line) == None
    ensures snaps != [] && LineAfter(snaps[..|snaps| - 1]) <= line ==> B.Lookup(m, line) == Some(segments[|snaps| - 1])
  {
    hide LineAfter;
    if snaps != [] && LineAfter(snaps[..|snaps| - 1]) <= line {
      forall i, j | 0 <= i < j < |m|
        ensures m[i].line < m[j].line
      {
        LinesIncrease(snaps, i, j);
      }
      B.LookupBlock(m, line, |snaps| - 1);
    }
  }

  lemma FirstLine(snaps: seq<Snap>)
    ensures LineAfter(snaps[..0]) == 1 && snaps[..|snaps|] == snaps
  {
  }

  /** How the DELETE command ends; `Freed` is an entry whose segment does not exist any more. */
  datatype Deletion = NoSegment | Freed | Deleted

  /** The text of the window holds a percent sign exactly if some segment shows its code. */
  lemma {:induction false} PercentInBlocks(snaps: seq<Snap>)
    requires forall s <- snaps :: s.Ok()
    ensures '%' in Blocks(snaps) <==> exists s <- snaps :: ShowsPercent(s)
    decreases |snaps|
  {
    hide Block, ShowsPercent;
    if snaps != [] {
      var n := |snaps| - 1;
      PercentInBlocks(snaps[..n]);
      PercentInBlock(snaps[n]);
      assert snaps == snaps[..n] + [snaps[n]];
    }
  }

  /** A segment of one byte that the window does not show as it is printed. */
  lemma PercentExample()
    ensures var s := Snap(0, 1, 1, true, "25", "25");
            s.Ok() && ShowsPercent(s) && B.Formatted(Blocks([s])) != Some(Blocks([s]))
  {
    hide Blocks, B.Formatted;
    var s := Snap(0, 1, 1, true, "25", "25");
    assert IsPercent(s, 0);
    PercentInBlocks([s]);
    B.FormattedIsText(Blocks([s]));
    assert s in [s];
  }

  class View {
    var segments: seq<Segment>
    const lineMems: B.LineMap<Segment>
    const obuf: B.DynArray
    var ascii: array<char>
    /** What the window shows, if that depends on its text alone. */
    var window: Option<string>

    ghost predicate Valid()
      reads `segments, `ascii, obuf, segments
    {
      obuf.Valid() && obuf.s != ascii &&
      (forall i, j | 0 <= i < j < |segments| :: segments[i] != segments[j]) &&
      (forall m <- segments :: IsPow2(m.alignment) && 2 * m.alignment + 1 <= ascii.Length && m.Fits(m.content))
    }

    constructor ()
      ensures Valid() && segments == [] && ascii.Length == 17 && fresh(lineMems) && fresh(obuf) && fresh(obuf.s)
    {
      lineMems := new B.LineMap<Segment>();
      obuf := new B.DynArray();
      segments, window := [], Some("");
      ascii := new char[17];
    }

    /**
     * The ADD command: an alignment that fails the test becomes 8, and the character buffer is made large enough for a
     * row. The test works on floating point; `isPower` is its verdict.
     */
    method Add(begin: nat, length: nat, content: string, alignment: Option<nat>, isPower: nat -> bool) returns (m: Segment)
      requires Valid() && |content| == 2 * length && N.IsHex(content)
      requires 17 <= ascii.Length
      modifies this
      ensures fresh(m) && segments == old(segments) + [m] && (ascii == old(ascii) || fresh(ascii))
      ensures 17 <= ascii.Length && m.begin == begin && m.length == length && m.content == content
      ensures m.alignment == if alignment.Some? && isPower(alignment.value) then alignment.value else 8
      // only a verdict that is right keeps the view usable
      ensures Valid() <==> (alignment.Some? && isPower(alignment.value) ==> IsPow2(alignment.value))
    {
      var a := 8;
      if alignment.Some? {
        a := alignment.value;
        if !isPower(a) {
          a := 8;
        }
        if ascii.Length < a * 2 + 1 {
          ascii := new char[a * 2 + 1];
        }
      }
      assert IsPow2(8) by {
        assert IsPow2(4) by {
          assert IsPow2(2);
        }
      }
      m := new Segment(begin, length, a, content);
      segments := segments + [m];
      assert m in segments;
    }

    /** All entries of the line map stand for segments that exist. */
    ghost predicate Intact()
      reads `segments, lineMems
    {
      forall e <- lineMems.v :: e.data in segments
    }

    /**
     * `cmd_memory_update`: unless the window is missing, every segment is read again and printed; the first failing read
     * ends the update. `snaps` is what was printed. After a failed read the line map is that of the segments before the
     * failing one, while the window goes on showing its old text.
     */
    method Refresh(present: bool, replies: seq<Option<string>>) returns (r: int, ghost snaps: seq<Snap>)
      requires Valid() && |replies| == |segments|
      requires forall i | 0 <= i < |replies| && replies[i].Some? :: segments[i].Fits(replies[i].value)
      modifies obuf`idx, obuf`s, obuf.s, ascii, lineMems`v, segments`content, segments`contentOld, `window
      ensures Valid()
      ensures r == if present && None in replies then -1 else 0
      ensures !present ==>
                unchanged(this, obuf, lineMems, segments) && obuf.s[..] == old(obuf.s[..]) && ascii[..] == old(ascii[..])
      ensures |snaps| <= |segments| && (forall s <- snaps :: s.Ok()) && None !in replies[..|snaps|]
      ensures r != 0 ==> |snaps| < |segments| && replies[|snaps|] == None
      ensures present ==> forall i | 0 <= i < |snaps| ::
                segments[i].Now() == snaps[i] &&
                segments[i].content == replies[i].value && segments[i].contentOld == old(segments[i].content)
      ensures present ==> Maps(lineMems.v, segments, snaps) && Intact()
      // the window shows the text exactly if no byte on show is the code of the percent sign
      ensures if present && r == 0 then |snaps| == |segments| && window == B.Formatted(Blocks(snaps))
              else window == old(window)
      ensures present && r == 0 ==> (window == Some(Blocks(snaps)) <==> forall s <- snaps :: !ShowsPercent(s))
    {
      hide *;
      if !present {
        return 0, [];
      }
      r, snaps := RefreshAll(replies);
      MapsMeans(lineMems.v, segments, snaps);
      if r == 0 {
        TextIs();
        window := B.Formatted(obuf.s[..obuf.idx]);
        PercentInBlocks(snaps);
        B.FormattedIsText(Blocks(snaps));
      }
    }

    /** The loop over the segments. */
    method RefreshAll(replies: seq<Option<string>>) returns (r: int, ghost snaps: seq<Snap>)
      requires Valid() && |replies| == |segments|
      requires forall i | 0 <= i < |replies| && replies[i].Some? :: segments[i].Fits(replies[i].value)
      modifies obuf`idx, obuf`s, obuf.s, ascii, lineMems`v, segments`content, segments`contentOld
      ensures Valid() && obuf.Valid()
      ensures r == if None in replies then -1 else 0
      ensures |snaps| <= |segments| && (forall s <- snaps :: s.Ok()) && None !in replies[..|snaps|]
      ensures if r != 0 then |snaps| < |segments| && replies[|snaps|] == None else |snaps| == |segments|
      ensures forall i | 0 <= i < |snaps| ::
                segments[i].Now() == snaps[i] &&
                segments[i].content == replies[i].value && segments[i].contentOld == old(segments[i].content)
      ensures Maps(lineMems.v, segments, snaps) && obuf.Text() == Blocks(snaps)
    {
      hide *;
      ghost var before := Contents(segments);
      snaps := [];
      Restart();
      NothingRead(segments, replies, before);
      var line, i := 1, 0;
      r := 0;
      while i < |segments|
        invariant 0 <= i <= |segments| && Valid() && (obuf.s == old(obuf.s) || fresh(obuf.s))
        invariant Read(segments, snaps, replies, before, i) && |snaps| == i
        invariant Shows(snaps, line) && None !in replies[..i]
      {
        var next;
        r, next := RefreshOne(segments[i], i, replies, snaps, before, line);
        assert replies[..i + 1] == replies[..i] + [replies[i]];
        if r != 0 {
          assert replies[i] in replies;
          ReadMeans(segments, snaps, replies, before, i);
          ShowsMeans(snaps, line);
          return;
        }
        snaps := snaps + [segments[i].Now()];
        i, line := i + 1, next;
      }
      assert replies[..i] == replies;
      ReadMeans(segments, snaps, replies, before, i);
      ShowsMeans(snaps, line);
    }

    lemma MapsMeans(m: seq<B.Entry<Segment>>, all: seq<Segment>, snaps: seq<Snap>)
      requires (forall s <- snaps :: s.Ok()) && Maps(m, all, snaps)
      ensures forall e <- m :: e.data in all
      ensures m == lineMems.v && all == segments ==> Intact()
    {
      hide LineAfter;
    }

    /**
     * The DELETE command, with gdb's answers to the update behind it. The entry of the deleted segment goes with the
     * update; without the window it stays, and the next command for that line meets a freed segment.
     */
    method Delete(line: nat, present: bool, gdb: Segment -> Option<string>) returns (r: Deletion)
      requires Valid() && forall m <- segments :: gdb(m).Some? ==> m.Fits(gdb(m).value)
      modifies `segments, `window, obuf`idx, obuf`s, obuf.s, ascii, lineMems`v, segments`content, segments`contentOld
      ensures r == match B.Lookup(old(lineMems.v), line)
                   case None => NoSegment
                   case Some(m) => if m in old(segments) then Deleted else Freed
      ensures Valid() && (r != Deleted ==> segments == old(segments) && lineMems.v == old(lineMems.v) && window == old(window))
      ensures r == Deleted ==>
                && (exists i | 0 <= i < |old(segments)| ::
                     B.Lookup(old(lineMems.v), line) == Some(old(segments)[i]) &&
                     segments == old(segments)[..i] + old(segments)[i + 1..])
                && (Intact() <==> present)
    {
      hide *;
      var found := At(line);
      if found == None {
        return NoSegment;
      }
      var m := found.value;
      if m !in segments {
        return Freed;
      }
      EntryOf(line, m);
      ghost var was := segments;
      Unlink(m);
      var left := segments;
      var replies := seq(|left|, k requires 0 <= k < |left| => gdb(left[k]));
      var r', snaps := Refresh(present, replies);
      if !present {
        NotIntact(m);
      }
      return Deleted;
    }

    /** `list_rm` of a segment. */
    method Unlink(m: Segment)
      requires Valid() && m in segments
      modifies `segments
      ensures Valid() && m !in segments && forall s <- segments :: s in old(segments)
      ensures exists i | 0 <= i < |old(segments)| ::
                old(segments)[i] == m && segments == old(segments)[..i] + old(segments)[i + 1..]
    {
      hide IsPow2;
      ghost var was := segments;
      var i :| 0 <= i < |segments| && segments[i] == m;
      segments := segments[..i] + segments[i + 1..];
      assert was[i] == m && segments == was[..i] + was[i + 1..];
    }

    /** A line leads to a segment. */
    ghost predicate Leads(m: Segment)
      reads lineMems
    {
      exists e <- lineMems.v :: e.data == m
    }

    lemma EntryOf(line: nat, m: Segment)
      requires B.Lookup(lineMems.v, line) == Some(m)
      ensures Leads(m)
    {
      B.LookupIsEntry(lineMems.v, line);
    }

    lemma NotIntact(m: Segment)
      requires Leads(m) && m !in segments
      ensures !Intact()
    {
    }

    lemma TextIs()
      requires obuf.Valid()
      ensures obuf.idx <= obuf.s.Length && obuf.Text() == obuf.s[..obuf.idx]
    {
    }

    /** The text, the line map and the line number after the blocks of `snaps`. */
    ghost predicate Shows(snaps: seq<Snap>, line: nat)
      reads this, obuf, obuf.s, lineMems
    {
      obuf.Valid() && (forall s <- snaps :: s.Ok()) && obuf.Text() == Blocks(snaps) &&
      Maps(lineMems.v, segments, snaps) && line == LineAfter(snaps)
    }

    /** Empties text and line map. */
    method Restart()
      requires Valid()
      modifies obuf`idx, obuf`s, obuf.s, lineMems`v
      ensures Valid() && obuf.s == old(obuf.s) && Shows([], 1)
    {
      hide IsPow2;
      lineMems.Clear();
      obuf.Clear();
    }

    lemma ShowsMeans(snaps: seq<Snap>, line: nat)
      requires Shows(snaps, line)
      ensures (forall s <- snaps :: s.Ok()) && obuf.Valid()
      ensures obuf.Text() == Blocks(snaps) && Maps(lineMems.v, segments, snaps)
    {
    }

    /** One round of the loop. */
    method RefreshOne(m: Segment, i: nat, replies: seq<Option<string>>, ghost snaps: seq<Snap>,
                      ghost before: seq<string>, line: nat)
      returns (r: int, next: nat)
      requires Valid() && i < |segments| == |replies| && m == segments[i]
      requires replies[i].Some? ==> m.Fits(replies[i].value)
      requires Read(segments, snaps, replies, before, i) && Shows(snaps, line)
      modifies obuf`idx, obuf`s, obuf.s, ascii, lineMems`v, m`content, m`contentOld
      ensures Valid() && (obuf.s == old(obuf.s) || fresh(obuf.s))
      ensures r == if replies[i] == None then -1 else 0
      ensures r != 0 ==> Read(segments, snaps, replies, before, i) && Shows(snaps, line)
      ensures r == 0 ==>
                var more := snaps + [m.Now()];
                Read(segments, more, replies, before, i + 1) && Shows(more, next)
    {
      hide Blocks, LineAfter, Maps, IsPow2, Block, BlockLines;
      next := line;
      r := m.Update(replies[i]);
      if r != 0 {
        return;
      }
      ghost var s := m.Now();
      assert s.Ok();
      OneMoreBlock(snaps, s);
      MapsMore(lineMems.v, segments, snaps, s);
      next := PrintSegment(m, line);
    }

    /** The segment at a screen line, for the DELETE and FOLD commands. */
    method At(line: nat) returns (m: Option<Segment>)
      ensures m == B.Lookup(lineMems.v, line)
    {
      m := lineMems.Find(line);
    }

    /** The lines of one segment. */
    method PrintSegment(m: Segment, line: nat) returns (next: nat)
      requires m.Now().Ok() && obuf.Valid() && obuf.s != ascii && 2 * m.alignment + 1 <= ascii.Length
      modifies obuf`idx, obuf`s, obuf.s, ascii, lineMems`v
      ensures obuf.Valid() && (obuf.s == old(obuf.s) || fresh(obuf.s))
      ensures obuf.Text() == old(obuf.Text()) + Block(m.Now()) && next == line + BlockLines(m.Now())
      ensures lineMems.v == old(lineMems.v) + [B.Entry(line, m)]
    {
      hide Block, Header, ColumnLine, Body, BlockLines, RowCount;
      var s := m.Now();
      BlockParts(s);
      assert lineMems as object != ascii && m as object != ascii;
      PrintHeader(m);
      lineMems.Add(line, m);
      next := line + 1;
      if !m.expanded {
        obuf.Add("\n");
        next := next + 1;
        return;
      }
      PrintColumns(s);
      next := next + 1;
      next := PrintBody(s, obuf, ascii, next);
    }

    method PrintHeader(m: Segment)
      requires obuf.Valid()
      modifies obuf`idx, obuf`s, obuf.s
      ensures obuf.Valid() && (obuf.s == old(obuf.s) || fresh(obuf.s))
      ensures obuf.Text() == old(obuf.Text()) + Header(m.Now())
    {
      hide Header, N.HexAddress, N.Signed;
      HeaderIs(m.Now(), if m.expanded then "-" else "+", N.HexAddress(m.begin), N.Signed(m.length));
      obuf.Add("[" + (if m.expanded then "-" else "+") + "] \U{00B4}h0memory dump: " + N.HexAddress(m.begin) + "`h0 ("
               + N.Signed(m.length) + " bytes)\n");
    }

    /** The numbers above the columns. */
    method PrintColumns(s: Snap)
      requires obuf.Valid()
      modifies obuf`idx, obuf`s, obuf.s
      ensures obuf.Valid() && (obuf.s == old(obuf.s) || fresh(obuf.s))
      ensures obuf.Text() == old(obuf.Text()) + ColumnLine(s)
    {
      hide *;
      ghost var text0 := obuf.Text();
      ColumnLineIs(s);
      obuf.Add(" " + N.Pad("", 16, ' ') + "      \U{00B4}h1");
      ghost var text1 := obuf.Text();
      for i := 0 to s.alignment
        invariant obuf.Valid() && (obuf.s == old(obuf.s) || fresh(obuf.s))
        invariant obuf.Text() == text1 + ColumnNumbers(i)
      {
        OneMoreColumn(i);
        obuf.Add(N.Pad(N.Digits(i, 16), 2, ' '));
      }
      obuf.Add("`h1\n");
    }
  }

  function Contents(segments: seq<Segment>): (r: seq<string>)
    reads segments`content
    ensures |r| == |segments| && forall i | 0 <= i < |r| :: r[i] == segments[i].content
  {
    if segments == [] then [] else Contents(segments[..|segments| - 1]) + [segments[|segments| - 1].content]
  }

  /** The first `n` segments have been read again and printed as `snaps`; `before` is what all of them held. */
  ghost predicate Read(segments: seq<Segment>, snaps: seq<Snap>, replies: seq<Option<string>>, before: seq<string>, n: nat)
    reads segments
  {
    n == |snaps| <= |segments| == |replies| == |before| &&
    (forall k | 0 <= k < n ::
       segments[k].Now() == snaps[k] && replies[k].Some? &&
       segments[k].content == replies[k].value && segments[k].contentOld == before[k]) &&
    forall k | n <= k < |segments| :: segments[k].content == before[k]
  }

  lemma NothingRead(segments: seq<Segment>, replies: seq<Option<string>>, before: seq<string>)
    requires |segments| == |replies| == |before| && forall i | 0 <= i < |segments| :: segments[i].content == before[i]
    ensures Read(segments, [], replies, before, 0)
  {
  }

  lemma ReadMeans(segments: seq<Segment>, snaps: seq<Snap>, replies: seq<Option<string>>, before: seq<string>, n: nat)
    requires Read(segments, snaps, replies, before, n)
    ensures n == |snaps| <= |segments| == |replies| == |before|
    ensures forall i | 0 <= i < n ::
              segments[i].Now() == snaps[i] && replies[i].Some? &&
              segments[i].content == replies[i].value && segments[i].contentOld == before[i]
  {
  }

  lemma HeaderIs(s: Snap, sign: string, address: string, length: string)
    requires sign == (if s.expanded then "-" else "+") && address == N.HexAddress(s.begin) && length == N.Signed(s.length)
    ensures Header(s) == "[" + sign + "] \U{00B4}h0memory dump: " + address + "`h0 (" + length + " bytes)\n"
  {
    hide N.HexAddress, N.Digits;
  }

  lemma OneMoreColumn(i: nat)
    ensures ColumnNumbers(i + 1) == ColumnNumbers(i) + N.Pad(N.Digits(i, 16), 2, ' ')
  {
    hide N.Digits, N.Pad;
  }

  lemma ColumnLineIs(s: Snap)
    ensures ColumnLine(s) == (" " + N.Pad("", 16, ' ') + "      \U{00B4}h1") + ColumnNumbers(s.alignment) + "`h1\n"
    ensures ColumnNumbers(0) == ""
  {
    hide N.Digits, N.Pad;
  }

  lemma BlockParts(s: Snap)
    requires s.Ok()
    ensures !s.expanded ==> BlockLines(s) == 2 && Block(s) == Header(s) + "\n"
    ensures s.expanded ==> BlockLines(s) == RowCount(s) + 3 && Block(s) == Header(s) + (ColumnLine(s) + Body(s))
  {
    hide Body, Header, ColumnLine, RowCount;
  }
}

/**
 * The windows of the vim interface: their creation and destruction, printing and clearing, and atomic sections.
 * Each call runs under the lock of the calls protocol, except for the look-up of the name of a window to be created.
 */
module VimWindows {
  import opened Options
  import opened Netbeans
  import opened VimTexts
  import E = Escape
  import N = Numbers

  datatype Cursor = Cursor(bufid: int, line: int, column: int)

  class Window {
    const id: int
    const name: string
    var len: nat
    var readonly: bool
    var preserve: bool
    var cursor: Option<Cursor>

    constructor (id: int, name: string)
      ensures this.id == id && this.name == name && len == 0 && !readonly && !preserve && cursor == None
    {
      this.id, this.name := id, name;
      len, readonly, preserve, cursor := 0, false, false, None;
    }
  }

  /** The same texts in all buffers. */
  ghost predicate SameTexts(a: seq<string>, b: seq<string>) {
    forall w: int :: Replay(a, w) == Replay(b, w)
  }

  /** Nothing but the text of `w` differs. */
  ghost predicate SameBut(a: seq<string>, b: seq<string>, w: int) {
    forall v: int :: v != w ==> Replay(a, v) == Replay(b, v)
  }

  /** The same status of all buffers, and no edit of a locked one. */
  ghost predicate SameStatus(a: seq<string>, b: seq<string>) {
    (forall w: int :: BufStatus(b, w) == BufStatus(a, w)) && (Permitted(a) ==> Permitted(b))
  }

  /** Further lines that change neither text nor status, leave `d` more sections open, and edit nothing. */
  ghost predicate Quiet(a: seq<string>, b: seq<string>, d: int) {
    SameTexts(a, b) && Depth(b) == Depth(a) + d && (Bracketed(a) && Depth(a) + d >= 0 ==> Bracketed(b)) && SameStatus(a, b)
  }

  /** Further lines that change nothing but the status of `w`, to `st`. */
  ghost predicate Sets(a: seq<string>, b: seq<string>, w: int, st: Status) {
    && SameTexts(a, b) && Depth(b) == Depth(a) && (Bracketed(a) ==> Bracketed(b)) && (Permitted(a) ==> Permitted(b))
    && BufStatus(b, w) == st && forall v: int :: v != w ==> BufStatus(b, v) == BufStatus(a, v)
  }

  lemma QuietThen(a: seq<string>, b: seq<string>, c: seq<string>, d: int, e: int)
    requires Quiet(a, b, d) && Quiet(b, c, e) && (d >= 0 || e <= 0)
    ensures Quiet(a, c, d + e)
  {
    hide Replay, Depth, Bracketed, BufStatus, Permitted;
    if Bracketed(a) {
      BracketedDepth(a);
    }
  }

  lemma BracketedDepth(a: seq<string>)
    requires Bracketed(a)
    ensures Depth(a) >= 0
  {
  }

  function Delta(name: string): int {
    if name == "startAtomic" then 1 else if name == "endAtomic" then -1 else 0
  }

  lemma QuietMessage(wire: seq<string>, r: Request)
    requires Readable(r) && !IsEdit(r) && !IsStatus(r)
    ensures Quiet(wire, wire + [Line(r) + "\n"], Delta(r.name))
  {
    hide Replay, Depth, Bracketed, BufStatus, Permitted, Line, IsEdit;
    OneMore(wire, r);
    OneMoreStatus(wire, r);
    NotEdited(r);
  }

  lemma StatusMessage(wire: seq<string>, r: Request)
    requires Readable(r) && IsStatus(r) && !IsEdit(r) && Delta(r.name) == 0
    ensures Sets(wire, wire + [Line(r) + "\n"], r.buf, StatusAfter(BufStatus(wire, r.buf), r))
  {
    hide Replay, Depth, Bracketed, BufStatus, Permitted, StatusAfter, IsStatus, IsEdit, Line;
    OneMore(wire, r);
    OneMoreStatus(wire, r);
    NotEdited(r);
    if Bracketed(wire) {
      BracketedDepth(wire);
    }
  }

  /** Messages that set nothing new. */
  lemma QuietSets(a: seq<string>, b: seq<string>, w: int)
    requires Quiet(a, b, 0)
    ensures Sets(a, b, w, BufStatus(a, w))
  {
    hide Replay, Depth, Bracketed, BufStatus, Permitted;
    if Bracketed(a) {
      BracketedDepth(a);
    }
  }

  lemma SetsThen(a: seq<string>, b: seq<string>, c: seq<string>, w: int, st: Status)
    requires Sets(a, b, w, st) && Quiet(b, c, 0)
    ensures Sets(a, c, w, st)
  {
    hide Replay, Depth, Bracketed, BufStatus, Permitted;
    if Bracketed(b) {
      BracketedDepth(b);
    }
  }

  lemma SetsMeans(a: seq<string>, b: seq<string>, w: int, st: Status)
    requires Sets(a, b, w, st)
    ensures forall v: int :: Replay(b, v) == Replay(a, v)
    ensures Depth(b) == Depth(a) && (Bracketed(a) ==> Bracketed(b)) && (Permitted(a) ==> Permitted(b))
    ensures BufStatus(b, w) == st && forall v: int :: v != w ==> BufStatus(b, v) == BufStatus(a, v)
  {
  }

  /** A position, as vim reads it. */
  function Position(line: int, column: int): string {
    N.Signed(line) + "/" + N.Signed(column)
  }

  lemma PositionFormat(i: int, j: int)
    ensures Good("%d", [Int(i)]) && Expand("%d", [Int(i)]) == N.Signed(i)
    ensures Good("%d/%d", [Int(i), Int(j)]) && Expand("%d/%d", [Int(i), Int(j)]) == Position(i, j)
  {
    hide *;
    NumberConverts(i);
    NumberConverts(j);
    PositionIs(i, j);
    assert ['/'] + "%d" == "/%d" && ['%', 'd'] + "/%d" == "%d/%d" && ['%', 'd'] + "" == "%d";
    assert [Int(i)] + [Int(j)] == [Int(i), Int(j)] && [Int(i)] + [] == [Int(i)] && [Int(j)] + [] == [Int(j)];
    ExpandNothing([]);
    ExpandConversion('d', Int(i), "", []);
    ExpandConversion('d', Int(j), "", []);
    ExpandCharacter('/', "%d", [Int(j)]);
    ExpandConversion('d', Int(i), "/%d", [Int(j)]);
  }

  lemma NumberConverts(i: int)
    ensures Converts('d', Int(i)) && Shown('d', Int(i)) == N.Signed(i) && N.Signed(i) + "" == N.Signed(i)
  {
  }

  lemma PositionIs(i: int, j: int)
    ensures Position(i, j) == N.Signed(i) + (['/'] + N.Signed(j))
  {
    hide N.Signed;
  }

  lemma NotEdited(r: Request)
    requires !IsEdit(r)
    ensures forall text :: Edited(text, r) == text
  {
  }

  /** The name of an action that tells vim of the status of a buffer. */
  predicate StatusName(name: string) {
    name == "setReadOnly" || name == "editFile" || name == "putBufferNumber" || name == "close"
  }

  lemma NoStatusName(r: Request)
    ensures !StatusName(r.name) ==> !IsStatus(r)
  {
  }

  /** The name of an action that neither inserts nor removes. */
  predicate PlainName(name: string) {
    '\n' !in name && '/' !in name && '!' !in name && name != "insert" && name != "remove"
  }

  lemma Names()
    ensures PlainName("startAtomic") && Delta("startAtomic") == 1 && !StatusName("startAtomic")
    ensures PlainName("endAtomic") && Delta("endAtomic") == -1 && !StatusName("endAtomic")
    ensures PlainName("getCursor") && Delta("getCursor") == 0 && !StatusName("getCursor")
    ensures PlainName("setDot") && Delta("setDot") == 0 && !StatusName("setDot")
    ensures PlainName("initDone") && Delta("initDone") == 0 && !StatusName("initDone")
    ensures PlainName("setReadOnly") && Delta("setReadOnly") == 0 && StatusName("setReadOnly")
  {
    hide *;
    AtomicNames();
    CursorNames();
    StateNames();
  }

  lemma AtomicNames()
    ensures PlainName("startAtomic") && Delta("startAtomic") == 1 && !StatusName("startAtomic")
    ensures PlainName("endAtomic") && Delta("endAtomic") == -1 && !StatusName("endAtomic")
  {
  }

  lemma CursorNames()
    ensures PlainName("getCursor") && Delta("getCursor") == 0 && !StatusName("getCursor")
    ensures PlainName("setDot") && Delta("setDot") == 0 && !StatusName("setDot")
  {
  }

  lemma StateNames()
    ensures PlainName("initDone") && Delta("initDone") == 0 && !StatusName("initDone")
    ensures PlainName("setReadOnly") && Delta("setReadOnly") == 0 && StatusName("setReadOnly")
  {
  }

  lemma WindowNames()
    ensures PlainName("editFile") && Delta("editFile") == 0 && StatusName("editFile")
    ensures PlainName("close") && Delta("close") == 0 && StatusName("close")
  {
  }

  lemma BufferNames()
    ensures PlainName("putBufferNumber") && Delta("putBufferNumber") == 0 && StatusName("putBufferNumber")
    ensures PlainName("stopDocumentListen") && Delta("stopDocumentListen") == 0 && !StatusName("stopDocumentListen")
  {
    hide *;
    NumberName();
    ListenName();
  }

  lemma NumberName()
    ensures PlainName("putBufferNumber") && Delta("putBufferNumber") == 0 && StatusName("putBufferNumber")
  {
  }

  lemma ListenName()
    ensures PlainName("stopDocumentListen") && Delta("stopDocumentListen") == 0 && !StatusName("stopDocumentListen")
  {
  }

  /** The formats used are good ones. */
  lemma Formats(i: int, j: int, s: string, t: string)
    ensures Good("", []) && Good("F", []) && Good("T", [])
    ensures Good("%d", [Int(i)]) && Good("%d/%d", [Int(i), Int(j)])
    ensures Good("\"%s\"", [Text(s)]) && Good("\"%s/%s\"", [Text(s), Text(t)])
  {
    hide *;
    FormatParts(i, j, s, t);
    assert ['/'] + "%d" == "/%d" && ['%', 'd'] + "/%d" == "%d/%d" && [Int(i)] + [Int(j)] == [Int(i), Int(j)];
    assert ['/'] + "%s\"" == "/%s\"" && ['%', 's'] + "/%s\"" == "%s/%s\"" && [Text(s)] + [Text(t)] == [Text(s), Text(t)];
    assert ['\"'] + "%s/%s\"" == "\"%s/%s\"";
    ExpandNothing([]);
    ExpandCharacter('F', "", []);
    ExpandCharacter('T', "", []);
    assert ['F'] + "" == "F" && ['T'] + "" == "T" && ['%', 'd'] + "" == "%d";
    ExpandConversion('d', Int(i), "", []);
    ExpandConversion('d', Int(j), "", []);
    assert [Int(i)] + [] == [Int(i)] && [Int(j)] + [] == [Int(j)];
    ExpandCharacter('/', "%d", [Int(j)]);
    ExpandConversion('d', Int(i), "/%d", [Int(j)]);
    QuotedFormat(s);
    ExpandCharacter('\"', "", []);
    assert ['\"'] + "" == "\"" && ['%', 's'] + "\"" == "%s\"" && [Text(t)] + [] == [Text(t)];
    ExpandConversion('s', Text(t), "\"", []);
    ExpandCharacter('/', "%s\"", [Text(t)]);
    ExpandConversion('s', Text(s), "/%s\"", [Text(t)]);
    ExpandCharacter('\"', "%s/%s\"", [Text(s), Text(t)]);
  }

  datatype Op = Section(win: int, en: bool) | Print(win: int, text: string) | Clear(win: int)

  /** A section is closed only for the window of the last one opened. */
  predicate Allowed(op: Op, open: seq<int>) {
    op.Section? && !op.en ==> open != [] && open[0] == op.win
  }

  function Opened(op: Op, open: seq<int>): seq<int>
    requires Allowed(op, open)
  {
    if !op.Section? then open else if op.en then [op.win] + open else open[1..]
  }

  /** Every section is closed for the window it was opened for, the last one opened first. */
  predicate Balanced(ops: seq<Op>, open: seq<int>) {
    if ops == [] then open == [] else Allowed(ops[0], open) && Balanced(ops[1..], Opened(ops[0], open))
  }

  /** The text of `w`, which was `text`, after one call. */
  function TextStep(op: Op, w: int, text: string): string {
    if op.Section? || op.win != w then text else if op.Print? then text + op.text else ""
  }

  /** The text of `w`, which was `text`: everything printed since the last clear. */
  function TextAfter(ops: seq<Op>, w: int, text: string): string {
    if ops == [] then text else TextAfter(ops[1..], w, TextStep(ops[0], w, text))
  }

  lemma OneOp(ops: seq<Op>, i: nat, open: seq<int>)
    requires i < |ops| && Balanced(ops[i..], open)
    ensures forall w: int, t: string :: TextAfter(ops[i..], w, t) == TextAfter(ops[i + 1..], w, TextStep(ops[i], w, t))
    ensures Allowed(ops[i], open) && Balanced(ops[i + 1..], Opened(ops[i], open))
  {
    assert ops[i..][1..] == ops[i + 1..] && ops[i..][0] == ops[i];
  }

  lemma AllOps(ops: seq<Op>, i: nat, open: seq<int>)
    requires i == |ops| && Balanced(ops[i..], open)
    ensures open == [] && forall w: int, t: string :: TextAfter(ops[i..], w, t) == t
  {
  }

  lemma FormatParts(i: int, j: int, s: string, t: string)
    ensures Converts('d', Int(i)) && Converts('d', Int(j)) && Converts('s', Text(s)) && Converts('s', Text(t))
  {
  }

  class VimUi {
    const cwd: string
    const conn: Connection
    /** vim's answers to `getCursor`, by the number of the call. */
    const answers: int -> Cursor
    var byName: map<string, Window>
    var byId: map<int, Window>
    var bufid: int
    var inAtomic: bool
    var cursor: Option<Cursor>

    constructor (cwd: string, conn: Connection, answers: int -> Cursor)
      requires conn.Ready() && conn.client.wire == []
      ensures Valid() && byId == map[] && !inAtomic && this.conn == conn
    {
      this.cwd, this.conn, this.answers := cwd, conn, answers;
      byName, byId, bufid, inAtomic, cursor := map[], map[], 1, false, None;
    }

    ghost function Wire(): seq<string>
      reads conn.client`wire
    {
      conn.client.wire
    }

    /** The two maps are inverse to each other, and every window knows the length of its text in vim. */
    ghost predicate Valid()
      reads `byId, `byName, `bufid, byId.Values`len, byId.Values`readonly, conn, conn.client, conn.client.sbuf
    {
      conn.Ready() && Known() && Lengths() && Statuses()
    }

    ghost predicate Known()
      reads `byId, `byName, `bufid
    {
      && bufid >= 1
      && (forall i <- byId :: 1 <= i < bufid && byId[i].id == i && byId[i].name in byName && byName[byId[i].name] == byId[i])
      && (forall n <- byName :: byName[n].name == n && byName[n].id in byId && byId[byName[n].id] == byName[n])
    }

    /** vim has every window under its name, locked exactly if it is read-only, and no edit met a locked buffer. */
    ghost predicate Statuses()
      reads `byId, `bufid, byId.Values`readonly, conn.client`wire
    {
      && (forall i <- byId :: BufStatus(Wire(), i) == Status(byId[i].readonly, Some(byId[i].name)))
      && (forall i: int :: i >= bufid ==> BufStatus(Wire(), i) == UNKNOWN)
      && Permitted(Wire())
    }

    ghost predicate Lengths()
      reads `byId, `bufid, byId.Values`len, conn.client`wire
    {
      && (forall i <- byId :: byId[i].len == |Replay(Wire(), i)|)
      && (forall i: int :: i >= bufid ==> Replay(Wire(), i) == "")
    }

    /** An action that neither inserts nor removes, nor changes the status of a buffer. */
    method Act(kind: Kind, name: string, buf: int, fmt: string, args: seq<Arg>) returns (r: int)
      requires conn.Ready() && Good(fmt, args) && '\n' !in fmt && PlainName(name) && !StatusName(name)
      modifies conn`seqNum, conn.client, conn.client.sbuf
      ensures conn.Ready() && (conn.client.sbuf == old(conn.client.sbuf) || fresh(conn.client.sbuf))
      ensures r == if buf >= 0 then 0 else -1
      ensures Quiet(old(Wire()), Wire(), if buf >= 0 then Delta(name) else 0)
      ensures conn.seqNum == old(conn.seqNum) + if buf >= 0 then 1 else 0
      ensures LastDot(Wire()) ==
              if buf >= 0 && name == "setDot" && fmt != "" then Some((buf, Expand(fmt, args))) else old(LastDot(Wire()))
    {
      hide Line, Quiet, Expand, Accepted, Fits, LastDot, StatusName;
      r := conn.Action(kind, name, buf, fmt, args);
      if buf >= 0 {
        var request := RequestFor(kind, name, buf, conn.seqNum, fmt, args);
        NoStatusName(request);
        QuietMessage(old(Wire()), request);
        OneMoreStatus(old(Wire()), request);
      } else {
        QuietNothing(Wire());
      }
    }

    /** An action that changes the status of a buffer. */
    method SetStatus(name: string, buf: nat, fmt: string, args: seq<Arg>)
      requires conn.Ready() && Good(fmt, args) && '\n' !in fmt && PlainName(name) && StatusName(name) && Delta(name) == 0
      modifies conn`seqNum, conn.client, conn.client.sbuf
      ensures conn.Ready() && (conn.client.sbuf == old(conn.client.sbuf) || fresh(conn.client.sbuf))
      ensures Sets(old(Wire()), Wire(), buf,
                   StatusAfter(old(BufStatus(Wire(), buf)), RequestFor(Command, name, buf, conn.seqNum, fmt, args)))
    {
      hide Line, Sets, Expand, Accepted, Fits, StatusAfter, BufStatus, Delta;
      var _ := conn.Action(Command, name, buf, fmt, args);
      StatusMessage(old(Wire()), RequestFor(Command, name, buf, conn.seqNum, fmt, args));
    }

    /** `win_cursor_set`: to a position, or behind the text for line -1. */
    method CursorSet(win: int, line: int, column: int) returns (r: int)
      requires conn.Ready()
      modifies conn`seqNum, conn.client, conn.client.sbuf
      ensures conn.Ready() && (conn.client.sbuf == old(conn.client.sbuf) || fresh(conn.client.sbuf))
      ensures r == if win >= 0 && (line != -1 || win in byId) then 0 else -1
      ensures Quiet(old(Wire()), Wire(), 0)
      ensures LastDot(Wire()) ==
              if r != 0 then old(LastDot(Wire()))
              else Some((win, if line == -1 then N.Signed(byId[win].len - 1) else Position(line, column)))
    {
      hide *;
      Names();
      if line == -1 {
        if win in byId {
          Formats(byId[win].len - 1, 0, "", "");
          PositionFormat(byId[win].len - 1, 0);
          r := Act(Command, "setDot", win, "%d", [Int(byId[win].len - 1)]);
        } else {
          QuietNothing(Wire());
          r := -1;
        }
      } else {
        Formats(line, column, "", "");
        PositionFormat(line, column);
        r := Act(Command, "setDot", win, "%d/%d", [Int(line), Int(column)]);
      }
    }

    /** `getCursor` asks vim for the current buffer and position. */
    method GetCursor() returns (c: Cursor)
      requires conn.Ready()
      modifies conn`seqNum, conn.client, conn.client.sbuf
      ensures conn.Ready() && (conn.client.sbuf == old(conn.client.sbuf) || fresh(conn.client.sbuf))
      ensures Quiet(old(Wire()), Wire(), 0) && LastDot(Wire()) == old(LastDot(Wire()))
      ensures conn.seqNum == old(conn.seqNum) + 1 && c == answers(conn.seqNum)
    {
      hide *;
      Names();
      Formats(0, 0, "", "");
      var _ := Act(Function, "getCursor", 0, "", []);
      c := answers(conn.seqNum);
    }

    /** A window that keeps its own cursor has one to go back to. */
    predicate CanLeave(win: int)
      reads `byId, byId.Values`preserve, byId.Values`cursor
    {
      win in byId && byId[win].preserve ==> byId[win].cursor.Some?
    }

    /** The windows apart from their cursors. */
    ghost predicate Settled()
      reads `byId
    {
      forall i <- byId :: byId[i].id == i && i >= 1
    }

    /** The start of an atomic section. */
    method EnterAtomic(win: int, apply: bool)
      requires conn.Ready() && Settled()
      modifies `inAtomic, `cursor, conn`seqNum, conn.client, conn.client.sbuf, byId.Values`cursor
      ensures conn.Ready() && (conn.client.sbuf == old(conn.client.sbuf) || fresh(conn.client.sbuf))
      ensures Quiet(old(Wire()), Wire(), 1) && inAtomic == (apply || old(inAtomic)) && CanLeave(win)
      // vim's cursor is remembered, and that of a window that keeps its own
      ensures cursor == Some(answers(old(conn.seqNum) + 2))
      ensures win in byId && byId[win].preserve ==> byId[win].cursor == Some(answers(old(conn.seqNum) + 4))
      ensures forall i <- byId :: old(byId[i].cursor).Some? ==> byId[i].cursor.Some?
    {
      hide Quiet, Good, PlainName, StatusName, Delta, Wire, LastDot, Connection.Ready;
      Names();
      Formats(0, 0, "", "");
      ghost var w0 := Wire();
      var _ := Act(Command, "startAtomic", 0, "", []);
      ghost var w1 := Wire();
      var c := GetCursor();
      cursor := Some(c);
      QuietThen(w0, w1, Wire(), 1, 0);
      if apply {
        inAtomic := true;
      }
      ghost var w2 := Wire();
      FocusWindow(win);
      QuietThen(w0, w2, Wire(), 1, 0);
    }

    /** A window that keeps its own cursor is focused, and its cursor remembered. */
    method FocusWindow(win: int)
      requires conn.Ready() && Settled()
      modifies conn`seqNum, conn.client, conn.client.sbuf, byId.Values`cursor
      ensures conn.Ready() && (conn.client.sbuf == old(conn.client.sbuf) || fresh(conn.client.sbuf))
      ensures Quiet(old(Wire()), Wire(), 0) && CanLeave(win)
      ensures win in byId && byId[win].preserve ==> byId[win].cursor == Some(answers(old(conn.seqNum) + 2))
      ensures forall i <- byId :: old(byId[i].cursor).Some? ==> byId[i].cursor.Some?
    {
      hide Quiet, Good, PlainName, StatusName, Delta, Wire, LastDot, Connection.Ready;
      Names();
      Formats(0, 0, "", "");
      QuietNothing(Wire());
      if win in byId && byId[win].preserve {
        var _ := Act(Command, "initDone", win, "", []);
        ghost var w1 := Wire();
        var c := GetCursor();
        QuietThen(old(Wire()), w1, Wire(), 0, 0);
        byId[win].cursor := Some(c);
      }
    }

    /** The end of an atomic section: window and vim get their cursors back. */
    method LeaveAtomic(win: int, apply: bool)
      requires conn.Ready() && Settled() && CanLeave(win)
      modifies `inAtomic, `cursor, conn`seqNum, conn.client, conn.client.sbuf
      ensures conn.Ready() && (conn.client.sbuf == old(conn.client.sbuf) || fresh(conn.client.sbuf))
      ensures Quiet(old(Wire()), Wire(), -1) && inAtomic == (!apply && old(inAtomic)) && cursor == Some(answers(conn.seqNum))
      // vim is sent back to where it was, or else the window to where that was
      ensures LastDot(Wire()) ==
              if old(cursor).Some? && old(cursor).value.bufid > 0 then
                var c := old(cursor).value;
                Some((c.bufid, Position(c.line, c.column)))
              else if win >= 0 && win in byId && byId[win].preserve then
                var c := byId[win].cursor.value;
                if c.line == -1 then Some((win, N.Signed(byId[win].len - 1))) else Some((win, Position(c.line, c.column)))
              else old(LastDot(Wire()))
    {
      hide *;
      Names();
      ghost var w0 := Wire();
      RestoreCursors(win);
      ghost var w2 := Wire();
      Formats(0, 0, "", "");
      var _ := Act(Command, "endAtomic", 0, "", []);
      ghost var w3 := Wire();
      QuietThen(w0, w2, w3, 0, -1);
      if apply {
        inAtomic := false;
      }
      var c := GetCursor();
      cursor := Some(c);
      QuietThen(w0, w3, Wire(), -1, 0);
    }

    /** The window that keeps its cursor, and then vim, go back to where they were. */
    method RestoreCursors(win: int)
      requires conn.Ready() && Settled() && CanLeave(win)
      modifies conn`seqNum, conn.client, conn.client.sbuf
      ensures conn.Ready() && (conn.client.sbuf == old(conn.client.sbuf) || fresh(conn.client.sbuf))
      ensures Quiet(old(Wire()), Wire(), 0)
      ensures LastDot(Wire()) ==
              if cursor.Some? && cursor.value.bufid > 0 then
                var c := cursor.value;
                Some((c.bufid, Position(c.line, c.column)))
              else if win >= 0 && win in byId && byId[win].preserve then
                var c := byId[win].cursor.value;
                if c.line == -1 then Some((win, N.Signed(byId[win].len - 1))) else Some((win, Position(c.line, c.column)))
              else old(LastDot(Wire()))
    {
      hide Quiet, Good, PlainName, StatusName, Delta, Wire, LastDot, Position, N.Signed, Expand, Connection.Ready;
      Names();
      ghost var w0 := Wire();
      QuietNothing(w0);
      if win in byId && byId[win].preserve {
        var c := byId[win].cursor.value;
        var _ := CursorSet(win, c.line, c.column);
      }
      ghost var w1 := Wire();
      if cursor.Some? && cursor.value.bufid > 0 {
        var c := cursor.value;
        Formats(c.line, c.column, "", "");
        PositionFormat(c.line, c.column);
        var _ := Act(Command, "setDot", c.bufid, "%d/%d", [Int(c.line), Int(c.column)]);
        QuietThen(w0, w1, Wire(), 0, 0);
      }
    }

    /** `atomic`: skipped inside a section of `win_atomic`, unless that section itself is meant. */
    method Atomic(win: int, en: bool, apply: bool)
      requires conn.Ready() && Settled() && (!en && (apply || !inAtomic) ==> CanLeave(win))
      modifies `inAtomic, `cursor, conn`seqNum, conn.client, conn.client.sbuf, byId.Values`cursor
      ensures conn.Ready() && (conn.client.sbuf == old(conn.client.sbuf) || fresh(conn.client.sbuf))
      ensures var skip := old(inAtomic) && !apply;
              && Quiet(old(Wire()), Wire(), if skip then 0 else if en then 1 else -1)
              && inAtomic == (if apply then en else old(inAtomic))
              && (en && !skip ==> CanLeave(win))
      ensures forall i <- byId :: old(byId[i].cursor).Some? ==> byId[i].cursor.Some?
    {
      hide *;
      if inAtomic && !apply {
        QuietNothing(Wire());
        return;
      }
      if en {
        EnterAtomic(win, apply);
      } else {
        LeaveAtomic(win, apply);
      }
    }

    /** `setReadOnly`, if the window is read-only. */
    method SetReadOnly(w: Window, fmt: string)
      requires conn.Ready() && w.id >= 0 && (fmt == "F" || fmt == "T")
      modifies conn`seqNum, conn.client, conn.client.sbuf
      ensures conn.Ready() && (conn.client.sbuf == old(conn.client.sbuf) || fresh(conn.client.sbuf))
      ensures var st := old(BufStatus(Wire(), w.id));
              Sets(old(Wire()), Wire(), w.id, if w.readonly then st.(locked := fmt == "T") else st)
    {
      hide *;
      Names();
      Formats(0, 0, "", "");
      if w.readonly {
        LockMessage(BufStatus(Wire(), w.id), w.id, conn.seqNum + 1, fmt);
        SetStatus("setReadOnly", w.id, fmt, []);
        LockMessage(old(BufStatus(Wire(), w.id)), w.id, conn.seqNum, fmt);
      } else {
        QuietNothing(Wire());
        QuietSets(Wire(), Wire(), w.id);
      }
    }

    /** `win_readonly`; without the window the program returns a value that was never set. */
    method ReadOnly(win: int, ro: bool) returns (known: bool)
      requires Valid()
      modifies conn`seqNum, conn.client, conn.client.sbuf, byId.Values`readonly
      ensures conn.client.sbuf == old(conn.client.sbuf) || fresh(conn.client.sbuf)
      ensures known == (win in byId) && (!known ==> Wire() == old(Wire()))
      ensures Valid() && (known ==> byId[win].readonly == ro)
      ensures forall i <- byId :: i != win ==> byId[i].readonly == old(byId[i].readonly)
    {
      hide *;
      ValidParts();
      if win !in byId {
        return false;
      }
      Names();
      SetsText(ro, BufStatus(Wire(), win), win, conn.seqNum + 1);
      byId[win].readonly := ro;
      SetStatus("setReadOnly", win, "%s", [Text(if ro then "T" else "F")]);
      SetsText(ro, old(BufStatus(Wire(), win)), win, conn.seqNum);
      SetValid(old(Wire()), win, old(BufStatus(Wire(), win)).(locked := ro));
      return true;
    }

    /** The insert of a print, behind the text vim has. */
    method Insert(w: Window, text: string)
      requires conn.Ready() && w.id >= 0 && w.len == |Replay(Wire(), w.id)|
      modifies conn`seqNum, conn.client, conn.client.sbuf, w`len
      ensures conn.Ready() && (conn.client.sbuf == old(conn.client.sbuf) || fresh(conn.client.sbuf))
      ensures EditsTo(old(Wire()), Wire(), w.id, old(Replay(Wire(), w.id)) + text) && w.len == old(w.len) + |text|
    {
      hide Replay, Depth, Bracketed, EditsTo, Line, RequestFor, Expand, Accepted, Fits, Delta;
      InsertName();
      InsertMessage(Wire(), w.id, conn.seqNum + 1, text);
      var _ := conn.Action(Function, "insert", w.id, INSERT, [Int(w.len), Text(text)]);
      w.len := w.len + |text|;
    }

    /** The remove of a clear, of all the text vim has. */
    method Remove(w: Window)
      requires conn.Ready() && w.id >= 0 && w.len == |Replay(Wire(), w.id)|
      modifies conn`seqNum, conn.client, conn.client.sbuf, w`len
      ensures conn.Ready() && (conn.client.sbuf == old(conn.client.sbuf) || fresh(conn.client.sbuf))
      ensures EditsTo(old(Wire()), Wire(), w.id, "") && w.len == 0
    {
      hide Replay, Depth, Bracketed, EditsTo, Line, RequestFor, Expand, Accepted, Fits, Delta;
      RemoveName();
      RemoveMessage(Wire(), w.id, conn.seqNum + 1);
      var _ := conn.Action(Function, "remove", w.id, REMOVE, [Int(w.len)]);
      w.len := 0;
    }

    /** The messages of a print, without the atomic section around them. */
    method PrintInside(w: Window, text: string)
      requires conn.Ready() && w.id >= 0 && w.len == |Replay(Wire(), w.id)| && BufStatus(Wire(), w.id).locked == w.readonly
      modifies conn`seqNum, conn.client, conn.client.sbuf, w`len
      ensures conn.Ready() && (conn.client.sbuf == old(conn.client.sbuf) || fresh(conn.client.sbuf))
      ensures Writes(old(Wire()), Wire(), w.id, old(Replay(Wire(), w.id)) + text) && w.len == old(w.len) + |text|
    {
      hide *;
      ghost var w0 := Wire();
      ghost var st := BufStatus(w0, w.id);
      SetReadOnly(w, "F");
      ghost var w1 := Wire();
      SetsMeans(w0, w1, w.id, st.(locked := false));
      Insert(w, text);
      ghost var w2 := Wire();
      EditedStatus(w1, w2, w.id, Replay(w0, w.id) + text);
      SetReadOnly(w, "T");
      ghost var w3 := Wire();
      if !inAtomic {
        var _ := CursorSet(w.id, -1, 0);
        SetsThen(w2, w3, Wire(), w.id, st);
      }
      EditAmidst(w0, w1, w2, Wire(), w.id, Replay(w0, w.id) + text, st);
    }

    /** The messages of a clear, without the atomic section around them. */
    method ClearInside(w: Window)
      requires conn.Ready() && w.id >= 0 && w.len == |Replay(Wire(), w.id)| && BufStatus(Wire(), w.id).locked == w.readonly
      modifies conn`seqNum, conn.client, conn.client.sbuf, w`len
      ensures conn.Ready() && (conn.client.sbuf == old(conn.client.sbuf) || fresh(conn.client.sbuf))
      ensures Writes(old(Wire()), Wire(), w.id, "") && w.len == 0
    {
      hide *;
      ghost var w0 := Wire();
      ghost var st := BufStatus(w0, w.id);
      SetReadOnly(w, "F");
      ghost var w1 := Wire();
      SetsMeans(w0, w1, w.id, st.(locked := false));
      Remove(w);
      ghost var w2 := Wire();
      EditedStatus(w1, w2, w.id, "");
      SetReadOnly(w, "T");
      EditAmidst(w0, w1, w2, Wire(), w.id, "", st);
    }

    /** A print with its atomic section. */
    method PrintAtomic(w: Window, win: int, text: string)
      requires conn.Ready() && Settled() && win in byId && w == byId[win] && w.len == |Replay(Wire(), win)|
      requires BufStatus(Wire(), win).locked == w.readonly
      modifies `inAtomic, `cursor, conn`seqNum, conn.client, conn.client.sbuf, byId.Values`cursor, w`len
      ensures conn.Ready() && (conn.client.sbuf == old(conn.client.sbuf) || fresh(conn.client.sbuf))
      ensures inAtomic == old(inAtomic) && w.len == old(w.len) + |text|
      ensures Changed(old(Wire()), Wire(), win, old(Replay(Wire(), win)) + text, inAtomic)
      ensures forall i <- byId :: old(byId[i].cursor).Some? ==> byId[i].cursor.Some?
    {
      hide *;
      SettledAt(win);
      ghost var w0, d := Wire(), if inAtomic then 0 else 1;
      Atomic(win, true, false);
      ghost var w1 := Wire();
      QuietText(w0, w1, d, win);
      PrintInside(w, text);
      ghost var w2 := Wire();
      Atomic(win, false, false);
      EditInside(w0, w1, w2, Wire(), d, win, Replay(w0, win) + text);
    }

    /** A clear with its atomic section. */
    method ClearAtomic(w: Window, win: int)
      requires conn.Ready() && Settled() && win in byId && w == byId[win] && w.len == |Replay(Wire(), win)|
      requires BufStatus(Wire(), win).locked == w.readonly
      modifies `inAtomic, `cursor, conn`seqNum, conn.client, conn.client.sbuf, byId.Values`cursor, w`len
      ensures conn.Ready() && (conn.client.sbuf == old(conn.client.sbuf) || fresh(conn.client.sbuf))
      ensures inAtomic == old(inAtomic) && w.len == 0
      ensures Changed(old(Wire()), Wire(), win, "", inAtomic)
      ensures forall i <- byId :: old(byId[i].cursor).Some? ==> byId[i].cursor.Some?
    {
      hide *;
      SettledAt(win);
      ghost var w0, d := Wire(), if inAtomic then 0 else 1;
      Atomic(win, true, false);
      ghost var w1 := Wire();
      QuietText(w0, w1, d, win);
      ClearInside(w);
      ghost var w2 := Wire();
      Atomic(win, false, false);
      EditInside(w0, w1, w2, Wire(), d, win, "");
    }

    lemma SettledAt(win: int)
      requires Settled() && win in byId
      ensures byId[win].id == win >= 1
    {
    }

    /** `win_vprint` of a formatted text. */
    method Print(win: int, text: string)
      requires Valid()
      modifies `inAtomic, `cursor, conn`seqNum, conn.client, conn.client.sbuf, byId.Values`cursor, byId.Values`len
      ensures conn.client.sbuf == old(conn.client.sbuf) || fresh(conn.client.sbuf)
      ensures Valid() && inAtomic == old(inAtomic)
      ensures Changed(old(Wire()), Wire(), win, old(Replay(Wire(), win)) + (if win in byId then text else ""), inAtomic)
      ensures forall i <- byId :: old(byId[i].cursor).Some? ==> byId[i].cursor.Some?
    {
      hide *;
      ValidParts();
      assert Replay(Wire(), win) + "" == Replay(Wire(), win);
      if win <= 0 || win !in byId {
        ChangedNothing(Wire(), win, inAtomic);
        return;
      }
      ghost var w0 := Wire();
      PrintAtomic(byId[win], win, text);
      ChangedText(w0, Wire(), win, Replay(w0, win) + text, inAtomic);
      StillValid(w0, win);
    }

    /** `win_clear` */
    method Clear(win: int)
      requires Valid()
      modifies `inAtomic, `cursor, conn`seqNum, conn.client, conn.client.sbuf, byId.Values`cursor, byId.Values`len
      ensures conn.client.sbuf == old(conn.client.sbuf) || fresh(conn.client.sbuf)
      ensures Valid() && inAtomic == old(inAtomic)
      ensures Changed(old(Wire()), Wire(), win, if win in byId then "" else old(Replay(Wire(), win)), inAtomic)
      ensures forall i <- byId :: old(byId[i].cursor).Some? ==> byId[i].cursor.Some?
    {
      hide *;
      ValidParts();
      if win !in byId {
        ChangedNothing(Wire(), win, inAtomic);
        return;
      }
      ghost var w0 := Wire();
      ClearAtomic(byId[win], win);
      ChangedText(w0, Wire(), win, "", inAtomic);
      StillValid(w0, win);
    }

    // ----- creating and finding windows -----

    /** Names that are no paths are taken relative to the working directory. */
    function FullName(name: string): string {
      if name != "" && name[0] == '/' then name else cwd + "/" + name
    }

    /** `win_getid` */
    method GetId(name: string) returns (id: int)
      ensures id == if FullName(name) in byName then byName[FullName(name)].id else -1
    {
      if FullName(name) in byName {
        return byName[FullName(name)].id;
      }
      return -1;
    }

    /** `win_create` by one thread: an existing window is reused, a new one gets a number that was never used before. */
    method Create(name: string) returns (id: int)
      requires Valid()
      modifies `byName, `byId, `bufid, conn`seqNum, conn.client, conn.client.sbuf
      ensures Valid() && id in byId && FullName(name) in byName && byName[FullName(name)] == byId[id]
      ensures FullName(name) in old(byName) ==>
                byId == old(byId) && byName == old(byName) && Wire() == old(Wire())
      ensures FullName(name) !in old(byName) ==>
                && id !in old(byId) && fresh(byId[id]) && byId == old(byId)[id := byId[id]]
                && byName == old(byName)[FullName(name) := byId[id]]
                && Sets(old(Wire()), Wire(), id, Status(false, Some(FullName(name)))) && Replay(Wire(), id) == ""
    {
      hide *;
      ValidParts();
      KnownNames();
      id := GetId(name);
      if id > 0 {
        return;
      }
      id := Register(name);
    }

    /**
     * The part of `win_create` under the lock. The look-up was made before the lock was taken, so another thread may have
     * registered the name since. The maps are inverse to each other afterwards exactly if none has; otherwise the window
     * of the other thread keeps its number but loses its name.
     */
    method Register(name: string) returns (id: int)
      requires Valid()
      modifies `byName, `byId, `bufid, conn`seqNum, conn.client, conn.client.sbuf
      ensures id !in old(byId) && id in byId && fresh(byId[id]) && byId == old(byId)[id := byId[id]]
      ensures byName == old(byName)[FullName(name) := byId[id]]
      ensures Sets(old(Wire()), Wire(), id, Status(false, Some(FullName(name)))) && Replay(Wire(), id) == ""
      ensures Known() <==> FullName(name) !in old(byName)
      ensures FullName(name) !in old(byName) ==> Valid()
      ensures FullName(name) in old(byName) ==>
                var other := old(byName)[FullName(name)];
                other.id in byId && byId[other.id] == other && other.name == FullName(name) && byName[other.name] != other
    {
      hide *;
      ValidParts();
      KnownNames();
      ghost var before, ids, names := Wire(), byId, byName;
      id := bufid;
      NewStatus(FullName(name));
      Announce(id, name);
      var b := new Window(id, FullName(name));
      SetsMeans(before, Wire(), id, Status(false, Some(b.name)));
      bufid := bufid + 1;
      byName := byName[b.name := b];
      byId := byId[id := b];
      if b.name in names {
        Unnamed(names[b.name]);
      } else {
        NewWindowKnown(id, b, ids, names);
        NewWindowValid(id, b, ids, before);
      }
    }

    lemma Unnamed(w: Window)
      requires w.id in byId && byId[w.id] == w && w.name in byName && byName[w.name] != w
      ensures !Known()
    {
    }

    /** The messages that connect a number to a file or to a new buffer, which vim then has under the full name. */
    method Announce(id: nat, name: string)
      requires conn.Ready()
      modifies conn`seqNum, conn.client, conn.client.sbuf
      ensures conn.Ready() && (conn.client.sbuf == old(conn.client.sbuf) || fresh(conn.client.sbuf))
      ensures Sets(old(Wire()), Wire(), id, old(BufStatus(Wire(), id)).(name := Some(FullName(name))))
    {
      hide *;
      WindowNames();
      BufferNames();
      PlainFormats();
      FullNameIs(name);
      ghost var st := BufStatus(Wire(), id);
      if name != "" && name[0] == '/' {
        NamesRead(name, "");
        SetStatus("editFile", id, "\"%s\"", [Text(name)]);
        FileMessage(st, id, conn.seqNum, name);
      } else {
        NamesRead(cwd, name);
        SetStatus("putBufferNumber", id, "\"%s/%s\"", [Text(cwd), Text(name)]);
        NumberMessage(st, id, conn.seqNum, cwd, name);
      }
      ghost var w1 := Wire();
      Formats(0, 0, "", "");
      var _ := Act(Command, "stopDocumentListen", id, "", []);
      SetsThen(old(Wire()), w1, Wire(), id, st.(name := Some(FullName(name))));
    }

    lemma FullNameIs(name: string)
      ensures FullName(name) == if name != "" && name[0] == '/' then name else cwd + "/" + name
    {
    }

    lemma KnownNames()
      requires Known()
      ensures bufid >= 1
      ensures forall i <- byId :: 1 <= i < bufid && byId[i].id == i && byId[i].name in byName && byName[byId[i].name] == byId[i]
      ensures forall n <- byName :: byName[n].name == n && byName[n].id in byId && byId[byName[n].id] == byName[n]
    {
    }

    /** A new window under an unused name and the next number. */
    lemma NewWindowKnown(id: int, b: Window, ids: map<int, Window>, names: map<string, Window>)
      requires b.id == id && id >= 1 && bufid == id + 1 && b.name !in names
      requires byId == ids[id := b] && byName == names[b.name := b]
      requires forall i <- ids :: 1 <= i < id && ids[i].id == i && ids[i].name in names && names[ids[i].name] == ids[i]
      requires forall n <- names :: names[n].name == n && names[n].id in ids && ids[names[n].id] == names[n]
      ensures Known()
    {
    }

    lemma NewWindowValid(id: int, b: Window, ids: map<int, Window>, before: seq<string>)
      requires conn.Ready() && Known() && id !in ids && byId == ids[id := b] && bufid == id + 1
      requires Sets(before, Wire(), id, Status(false, Some(b.name))) && Permitted(before) && !b.readonly && b.len == 0
      requires forall i <- ids :: BufStatus(before, i) == Status(ids[i].readonly, Some(ids[i].name))
      requires forall i: int :: i >= id ==> BufStatus(before, i) == UNKNOWN
      requires forall i <- ids :: ids[i].len == |Replay(before, i)|
      requires forall i: int :: i >= id ==> Replay(before, i) == ""
      ensures Valid()
    {
      hide *;
      SetValid(before, id, Status(false, Some(b.name)));
    }

    /** The message that closes a buffer, which vim then forgets. */
    method CloseBuffer(win: nat)
      requires conn.Ready()
      modifies conn`seqNum, conn.client, conn.client.sbuf
      ensures conn.Ready() && (conn.client.sbuf == old(conn.client.sbuf) || fresh(conn.client.sbuf))
      ensures Sets(old(Wire()), Wire(), win, UNKNOWN)
    {
      hide *;
      WindowNames();
      Formats(0, 0, "", "");
      ghost var st := BufStatus(Wire(), win);
      SetStatus("close", win, "", []);
      CloseMessage(st, win, conn.seqNum);
    }

    /** `win_destroy`: the close is sent for any number, but only a known window is forgotten. */
    method Destroy(win: int) returns (r: int)
      requires Valid()
      modifies `byName, `byId, conn`seqNum, conn.client, conn.client.sbuf
      ensures r == if win in old(byId) then 0 else -1
      ensures byId == old(byId) - {win}
      ensures byName == if r == 0 then old(byName) - {old(byId[win]).name} else old(byName)
      ensures if win >= 0 then Sets(old(Wire()), Wire(), win, UNKNOWN) else Wire() == old(Wire())
      ensures Valid()
    {
      hide *;
      ValidParts();
      KnownNames();
      if win < 0 {
        assert byId == byId - {win};
        return -1;
      }
      CloseBuffer(win);
      if win !in byId {
        assert byId == byId - {win};
        ClosedValid(old(Wire()), win);
        return -1;
      }
      byName := byName - {byId[win].name};
      byId := byId - {win};
      StillKnown(old(byId), old(byName), win);
      ClosedValid(old(Wire()), win);
      return 0;
    }

    /** The maps without one window. */
    lemma StillKnown(ids: map<int, Window>, names: map<string, Window>, win: int)
      requires win in ids && byId == ids - {win} && byName == names - {ids[win].name} && bufid >= 1
      requires forall i <- ids :: 1 <= i < bufid && ids[i].id == i && ids[i].name in names && names[ids[i].name] == ids[i]
      requires forall n <- names :: names[n].name == n && names[n].id in ids && ids[names[n].id] == names[n]
      ensures Known()
    {
    }

    /** Closing a buffer that is no window, or none any more. */
    lemma ClosedValid(before: seq<string>, win: int)
      requires conn.Ready() && Known() && Sets(before, Wire(), win, UNKNOWN) && Permitted(before) && win !in byId
      requires forall i <- byId :: BufStatus(before, i) == Status(byId[i].readonly, Some(byId[i].name))
      requires forall i: int :: i >= bufid ==> BufStatus(before, i) == UNKNOWN
      requires forall i <- byId :: byId[i].len == |Replay(before, i)|
      requires forall i: int :: i >= bufid ==> Replay(before, i) == ""
      ensures Valid()
    {
      hide Replay, Depth, Bracketed, BufStatus, Permitted;
    }

    lemma QuietValid(before: seq<string>, d: int)
      requires conn.Ready() && Known() && Quiet(before, Wire(), d)
      requires (forall i <- byId :: BufStatus(before, i) == Status(byId[i].readonly, Some(byId[i].name))) && Permitted(before)
      requires forall i: int :: i >= bufid ==> BufStatus(before, i) == UNKNOWN
      requires forall i <- byId :: byId[i].len == |Replay(before, i)|
      requires forall i: int :: i >= bufid ==> Replay(before, i) == ""
      ensures Valid()
    {
      hide Replay, Depth, Bracketed;
    }

    /** The status of one buffer is what its window wants, and nothing else has changed. */
    lemma SetValid(before: seq<string>, w: int, st: Status)
      requires conn.Ready() && Known() && Sets(before, Wire(), w, st) && Permitted(before) && w < bufid
      requires w in byId ==> st == Status(byId[w].readonly, Some(byId[w].name))
      requires forall i <- byId :: i != w ==> BufStatus(before, i) == Status(byId[i].readonly, Some(byId[i].name))
      requires forall i: int :: i >= bufid ==> BufStatus(before, i) == UNKNOWN
      requires forall i <- byId :: byId[i].len == |Replay(before, i)|
      requires forall i: int :: i >= bufid ==> Replay(before, i) == ""
      ensures Valid()
    {
      hide Replay, Depth, Bracketed, BufStatus, Permitted;
    }

    // ----- any use of the windows -----

    /** One call of `win_atomic`, `win_print` or `win_clear`; `open` are the sections of `win_atomic` that are open. */
    method Perform(op: Op, ghost open: seq<int>, ghost base: int) returns (ghost next: seq<int>)
      requires Valid() && Nested(open, base)
      requires Allowed(op, open)
      modifies `inAtomic, `cursor, conn`seqNum, conn.client, conn.client.sbuf, byId.Values`cursor, byId.Values`len
      ensures Valid() && Nested(next, base)
      ensures conn.client.sbuf == old(conn.client.sbuf) || fresh(conn.client.sbuf)
      ensures next == Opened(op, open)
      ensures forall w <- byId :: Replay(Wire(), w) == TextStep(op, w, old(Replay(Wire(), w)))
    {
      hide Replay, Depth, Bracketed, Quiet, Changed, Valid, Known, Lengths, Statuses, SameStatus, BufStatus, Permitted, Nested;
      hide Connection.Ready;
      ghost var w0 := Wire();
      next := Opened(op, open);
      NestedIs(open, base);
      match op {
        case Section(win, en) =>
          ToggleSection(win, en, open, next, base);
        case Print(win, text) =>
          Print(win, text);
          ChangedParts(w0, Wire(), win, Replay(w0, win) + (if win in byId then text else ""), inAtomic);
        case Clear(win) =>
          Clear(win);
          ChangedParts(w0, Wire(), win, if win in byId then "" else Replay(w0, win), inAtomic);
      }
      NestedIs(next, base);
    }

    /** `win_atomic` as one of the calls. */
    method ToggleSection(win: int, en: bool, ghost open: seq<int>, ghost next: seq<int>, ghost base: int)
      requires Valid() && Nested(open, base)
      requires if en then next == [win] + open else open != [] && open[0] == win && next == open[1..]
      modifies `inAtomic, `cursor, conn`seqNum, conn.client, conn.client.sbuf, byId.Values`cursor
      ensures Valid() && Nested(next, base)
      ensures conn.client.sbuf == old(conn.client.sbuf) || fresh(conn.client.sbuf)
      ensures forall w <- byId :: Replay(Wire(), w) == old(Replay(Wire(), w))
    {
      hide Replay, Depth, Bracketed, Quiet, Valid, Known, Lengths, Statuses, SameStatus, BufStatus, Permitted, Connection.Ready;
      ValidParts();
      ghost var w0 := Wire();
      Atomic(win, en, true);
      QuietParts(w0, Wire(), if en then 1 else -1);
      QuietValid(w0, if en then 1 else -1);
    }

    /** What it means that sections are open. */
    lemma NestedIs(open: seq<int>, base: int)
      ensures Nested(open, base) <==>
              && base >= 0 && Depth(Wire()) == base + |open| && Bracketed(Wire()) && (inAtomic ==> open != [])
              && forall k | 0 <= k < |open| :: CanLeave(open[k])
    {
    }

    /**
     * Any balanced use of the windows: all sections are closed again, every insert and remove lay inside a section, and
     * every window shows what was printed since it was last cleared.
     */
    method Run(ops: seq<Op>)
      requires Valid() && Bracketed(Wire()) && !inAtomic && Balanced(ops, [])
      modifies `inAtomic, `cursor, conn`seqNum, conn.client, conn.client.sbuf, byId.Values`cursor, byId.Values`len
      ensures Valid() && Bracketed(Wire()) && !inAtomic && Depth(Wire()) == old(Depth(Wire()))
      ensures forall w <- byId :: Replay(Wire(), w) == TextAfter(ops, w, old(Replay(Wire(), w)))
    {
      hide *;
      BracketedDepth(Wire());
      ghost var base, open: seq<int> := Depth(Wire()), [];
      NotNested();
      assert ops[0..] == ops;
      var i := 0;
      while i < |ops|
        invariant 0 <= i <= |ops| && Valid() && Nested(open, base) && Balanced(ops[i..], open)
        invariant conn.client.sbuf == old(conn.client.sbuf) || fresh(conn.client.sbuf)
        invariant forall w <- byId ::
                    TextAfter(ops[i..], w, Replay(Wire(), w)) == TextAfter(ops, w, old(Replay(Wire(), w)))
      {
        OneOp(ops, i, open);
        open := Perform(ops[i], open, base);
        i := i + 1;
      }
      AllOps(ops, i, open);
      NestedMeans(open, base);
    }

    lemma NotNested()
      requires Bracketed(Wire()) && !inAtomic
      ensures Nested([], Depth(Wire()))
    {
      BracketedDepth(Wire());
    }

    lemma NestedMeans(open: seq<int>, base: int)
      requires Nested(open, base)
      ensures Bracketed(Wire()) && Depth(Wire()) == base + |open| && (inAtomic ==> open != [])
    {
    }

    /** `base` sections and those of `open` are open, and their windows can be left. */
    ghost predicate Nested(open: seq<int>, base: int)
      reads `byId, `inAtomic, byId.Values`preserve, byId.Values`cursor, conn.client`wire
    {
      && base >= 0 && Depth(Wire()) == base + |open| && Bracketed(Wire()) && (inAtomic ==> open != [])
      && forall k | 0 <= k < |open| :: CanLeave(open[k])
    }

    lemma ValidParts()
      requires Valid()
      ensures conn.Ready() && Settled() && Known()
      ensures forall i <- byId :: i >= 1 && byId[i].id == i && byId[i].len == |Replay(Wire(), i)|
      ensures forall i: int :: i >= bufid ==> Replay(Wire(), i) == ""
      ensures forall i <- byId :: BufStatus(Wire(), i) == Status(byId[i].readonly, Some(byId[i].name))
      ensures (forall i: int :: i >= bufid ==> BufStatus(Wire(), i) == UNKNOWN) && Permitted(Wire())
      ensures forall i, j | i in byId && j in byId :: byId[i] == byId[j] ==> i == j
    {
    }

    /** The lengths are right again when only that of `win` and its text have changed. */
    lemma StillValid(before: seq<string>, win: int)
      requires conn.Ready() && Known() && SameBut(before, Wire(), win) && win in byId
      requires (forall i <- byId :: BufStatus(before, i) == Status(byId[i].readonly, Some(byId[i].name))) && Permitted(before)
      requires (forall i: int :: i >= bufid ==> BufStatus(before, i) == UNKNOWN) && SameStatus(before, Wire())
      requires forall i <- byId :: i != win ==> byId[i].len == |Replay(before, i)|
      requires forall i: int :: i >= bufid ==> Replay(before, i) == ""
      requires byId[win].len == |Replay(Wire(), win)|
      ensures Valid()
    {
      hide Replay;
    }
  }

  /** Only the text of `w` differs, and an edit happened inside an atomic section, the caller's or its own. */
  ghost predicate Changed(a: seq<string>, b: seq<string>, w: int, text: string, inside: bool) {
    && Replay(b, w) == text && SameBut(a, b, w) && Depth(b) == Depth(a) && SameStatus(a, b)
    && (Bracketed(a) && (inside ==> Depth(a) >= 1) ==> Bracketed(b))
  }

  lemma ChangedNothing(a: seq<string>, w: int, inside: bool)
    ensures Changed(a, a, w, Replay(a, w), inside)
  {
  }

  lemma QuietText(a: seq<string>, b: seq<string>, d: int, w: int)
    requires Quiet(a, b, d)
    ensures Replay(b, w) == Replay(a, w) && BufStatus(b, w) == BufStatus(a, w)
  {
  }

  /** An edit between two messages that unlock the buffer and set its status again. */
  lemma EditAmidst(a: seq<string>, b: seq<string>, c: seq<string>, e: seq<string>, w: int, text: string, st: Status)
    requires st == BufStatus(a, w) && Sets(a, b, w, st.(locked := false)) && EditsTo(b, c, w, text) && Sets(c, e, w, st)
    ensures Writes(a, e, w, text)
  {
    hide Replay, Depth, Bracketed, BufStatus, Permitted;
    if Bracketed(c) {
      BracketedDepth(c);
    }
  }

  lemma EditedStatus(a: seq<string>, b: seq<string>, w: int, text: string)
    requires EditsTo(a, b, w, text)
    ensures BufStatus(b, w) == BufStatus(a, w)
  {
  }

  lemma NewStatus(name: string)
    ensures UNKNOWN.(name := Some(name)) == Status(false, Some(name))
  {
  }

  lemma CloseMessage(st: Status, w: int, number: int)
    ensures Good("", []) && StatusAfter(st, RequestFor(Command, "close", w, number, "", [])) == UNKNOWN
  {
  }

  lemma FileMessage(st: Status, w: int, number: int, name: string)
    requires Good("\"%s\"", [Text(name)]) && ReadQuoted(Expand("\"%s\"", [Text(name)])) == Some(name)
    ensures StatusAfter(st, RequestFor(Command, "editFile", w, number, "\"%s\"", [Text(name)])) == st.(name := Some(name))
  {
    hide Expand, ReadQuoted;
  }

  lemma NumberMessage(st: Status, w: int, number: int, s: string, t: string)
    requires Good("\"%s/%s\"", [Text(s), Text(t)])
    requires ReadQuoted(Expand("\"%s/%s\"", [Text(s), Text(t)])) == Some(s + "/" + t)
    ensures StatusAfter(st, RequestFor(Command, "putBufferNumber", w, number, "\"%s/%s\"", [Text(s), Text(t)])) ==
            st.(name := Some(s + "/" + t))
  {
    hide Expand, ReadQuoted;
  }

  lemma LockMessage(st: Status, w: int, number: int, fmt: string)
    requires fmt == "F" || fmt == "T"
    ensures Good(fmt, [])
    ensures StatusAfter(st, RequestFor(Command, "setReadOnly", w, number, fmt, [])) == st.(locked := fmt == "T")
  {
    ExpandNothing([]);
    ExpandCharacter('F', "", []);
    ExpandCharacter('T', "", []);
    assert ['F'] + "" == "F" && ['T'] + "" == "T";
  }

  lemma SetsText(ro: bool, st: Status, w: int, number: int)
    ensures var args := [Text(if ro then "T" else "F")];
            && Good("%s", args) && '\n' !in "%s"
            && StatusAfter(st, RequestFor(Command, "setReadOnly", w, number, "%s", args)) == st.(locked := ro)
  {
    hide E.Escape, Expand;
    var t := if ro then "T" else "F";
    FlagStays();
    TextConverts(t);
    ExpandNothing([]);
    ExpandConversion('s', Text(t), "", []);
    assert ['%', 's'] + "" == "%s" && [Text(t)] + [] == [Text(t)] && t + "" == t;
  }

  lemma FlagStays()
    ensures E.Escape("T") == "T" && E.Escape("F") == "F"
  {
    assert "T"[1..] == "" && "F"[1..] == "";
  }

  lemma QuietParts(a: seq<string>, b: seq<string>, d: int)
    requires Quiet(a, b, d)
    ensures forall w: int :: Replay(b, w) == Replay(a, w)
    ensures Depth(b) == Depth(a) + d && (Bracketed(a) && Depth(a) + d >= 0 ==> Bracketed(b)) && SameStatus(a, b)
  {
    hide Replay, Depth, Bracketed, SameStatus;
  }

  lemma ChangedParts(a: seq<string>, b: seq<string>, w: int, text: string, inside: bool)
    requires Changed(a, b, w, text, inside)
    ensures Replay(b, w) == text && forall v: int :: v != w ==> Replay(b, v) == Replay(a, v)
    ensures Depth(b) == Depth(a) && (Bracketed(a) && (inside ==> Depth(a) >= 1) ==> Bracketed(b)) && SameStatus(a, b)
  {
    hide Replay, Depth, Bracketed, SameStatus;
  }

  lemma PlainFormats()
    ensures '\n' !in "\"%s\"" && '\n' !in "\"%s/%s\""
  {
  }

  lemma ChangedText(a: seq<string>, b: seq<string>, w: int, text: string, inside: bool)
    requires Changed(a, b, w, text, inside)
    ensures Replay(b, w) == text && SameBut(a, b, w) && SameStatus(a, b)
  {
  }

  lemma EditInside(a: seq<string>, b: seq<string>, c: seq<string>, e: seq<string>, d: int, w: int, text: string)
    requires 0 <= d <= 1 && Quiet(a, b, d) && Writes(b, c, w, text) && Quiet(c, e, -d)
    ensures Changed(a, e, w, text, d == 0)
  {
    hide Replay, Depth, Bracketed, BufStatus, Permitted;
    if Bracketed(a) {
      BracketedDepth(a);
    }
  }

  /** Further lines that change the text of `w` only, to `text`, inside an atomic section if there is one. */
  ghost predicate Writes(a: seq<string>, b: seq<string>, w: int, text: string) {
    && Replay(b, w) == text && SameBut(a, b, w) && Depth(b) == Depth(a) && SameStatus(a, b)
    && (Bracketed(a) && Depth(a) >= 1 ==> Bracketed(b))
  }

  /** An edit that changes the text of `w` only, to `text`; it must not meet a locked buffer. */
  ghost predicate EditsTo(a: seq<string>, b: seq<string>, w: int, text: string) {
    && Replay(b, w) == text && SameBut(a, b, w) && Depth(b) == Depth(a)
    && (Bracketed(a) && Depth(a) >= 1 ==> Bracketed(b))
    && (forall v: int :: BufStatus(b, v) == BufStatus(a, v)) && (Permitted(a) && !BufStatus(a, w).locked ==> Permitted(b))
  }

  lemma InsertMessage(wire: seq<string>, w: nat, number: nat, text: string)
    ensures var args := [Int(|Replay(wire, w)|), Text(text)];
            && Good(INSERT, args) && '\n' !in INSERT
            && EditsTo(wire, wire + [Line(RequestFor(Function, "insert", w, number, INSERT, args)) + "\n"], w,
                       Replay(wire, w) + text)
  {
    hide Replay, Depth, Bracketed, BufStatus, Permitted, Line, Edited, Expand, SameBut, Good;
    InsertName();
    InsertPlain();
    InsertAppends(Replay(wire, w), w, number, text);
    EditMessage(wire, RequestFor(Function, "insert", w, number, INSERT, [Int(|Replay(wire, w)|), Text(text)]));
  }

  lemma RemoveMessage(wire: seq<string>, w: nat, number: nat)
    ensures var args := [Int(|Replay(wire, w)|)];
            && Good(REMOVE, args) && '\n' !in REMOVE
            && EditsTo(wire, wire + [Line(RequestFor(Function, "remove", w, number, REMOVE, args)) + "\n"], w, "")
  {
    hide Replay, Depth, Bracketed, BufStatus, Permitted, Line, Edited, Expand, SameBut, Good;
    RemoveName();
    RemovePlain();
    RemoveEmpties(Replay(wire, w), w, number);
    EditMessage(wire, RequestFor(Function, "remove", w, number, REMOVE, [Int(|Replay(wire, w)|)]));
  }

  lemma InsertName()
    ensures '\n' !in "insert" && '/' !in "insert" && '!' !in "insert" && Delta("insert") == 0
  {
  }

  lemma RemoveName()
    ensures '\n' !in "remove" && '/' !in "remove" && '!' !in "remove" && Delta("remove") == 0
  {
  }

  lemma InsertPlain()
    ensures '\n' !in INSERT
  {
  }

  lemma RemovePlain()
    ensures '\n' !in REMOVE
  {
  }

  lemma EditMessage(wire: seq<string>, r: Request)
    requires Readable(r) && Delta(r.name) == 0 && !IsStatus(r)
    ensures var more := wire + [Line(r) + "\n"];
            && Replay(more, r.buf) == Edited(Replay(wire, r.buf), r) && SameBut(wire, more, r.buf)
            && Depth(more) == Depth(wire) && (Bracketed(wire) && Depth(wire) >= 1 ==> Bracketed(more))
            && (forall v: int :: BufStatus(more, v) == BufStatus(wire, v))
            && (Permitted(wire) && !BufStatus(wire, r.buf).locked ==> Permitted(more))
  {
    hide Replay, Depth, Bracketed, BufStatus, Permitted, Line, IsEdit, Edited;
    OneMore(wire, r);
    OneMoreStatus(wire, r);
  }

  lemma QuietNothing(a: seq<string>)
    ensures Quiet(a, a, 0)
  {
  }
}

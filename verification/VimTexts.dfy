/**
 * What vim makes of the lines it receives: the text of every buffer after all inserts and removes, and the nesting of
 * atomic sections.
 */
module VimTexts {
  import opened Options
  import opened Netbeans
  import E = Escape
  import N = Numbers

  const INSERT := "%d \"%s\""
  const REMOVE := "0 %d"

  /** Reads the arguments of an insert: an offset and a quoted text. */
  function ReadInsert(args: string): Option<(int, string)> {
    var i := DigitSpan(args);
    if i == 0 || i + 2 > |args| || args[i] != ' ' || args[i + 1] != '\"' then None
    else
      var rest := args[i + 2..];
      var q := E.CloseQuote(rest);
      if q == |rest| then None else Some((N.Value(args[..i], 10), E.Deescape(rest[..q])))
  }

  /** Reads the arguments of a remove: an offset and a length. */
  function ReadRemove(args: string): Option<(int, int)> {
    var i := DigitSpan(args);
    if i == 0 || i == |args| || args[i] != ' ' then None
    else
      var rest := args[i + 1..];
      if DigitSpan(rest) != |rest| || rest == "" then None
      else Some((N.Value(args[..i], 10), N.Value(rest, 10)))
  }

  /** A line of the wire ends in a newline. */
  function ReadWire(line: string): Option<Request> {
    if line == "" || line[|line| - 1] != '\n' then None else ReadLine(line[..|line| - 1])
  }

  predicate IsEdit(r: Request) {
    r.kind == Function && (r.name == "insert" || r.name == "remove")
  }

  /** The text of the buffer that a request is for, afterwards. */
  function Edited(text: string, r: Request): string {
    if !IsEdit(r) || r.args == None then text
    else if r.name == "insert" then
      match ReadInsert(r.args.value)
      case Some((at, s)) => if 0 <= at <= |text| then text[..at] + s + text[at..] else text
      case None => text
    else
      match ReadRemove(r.args.value)
      case Some((at, n)) => if 0 <= at <= at + n <= |text| then text[..at] + text[at + n..] else text
      case None => text
  }

  function Edit(text: string, line: string, w: int): string {
    match ReadWire(line)
    case Some(r) => if r.buf == w then Edited(text, r) else text
    case None => text
  }

  /** The text of buffer `w` after all lines, from an empty buffer on. */
  function Replay(wire: seq<string>, w: int): string {
    if wire == [] then "" else Edit(Replay(wire[..|wire| - 1], w), wire[|wire| - 1], w)
  }

  function Nesting(line: string): int {
    match ReadWire(line)
    case Some(r) => if r.name == "startAtomic" then 1 else if r.name == "endAtomic" then -1 else 0
    case None => 0
  }

  /** Open atomic sections. */
  function Depth(wire: seq<string>): int {
    if wire == [] then 0 else Depth(wire[..|wire| - 1]) + Nesting(wire[|wire| - 1])
  }

  /** No section is closed before it is opened, and every insert or remove lies inside one. */
  predicate Bracketed(wire: seq<string>) {
    wire == [] ||
    var before, line := wire[..|wire| - 1], wire[|wire| - 1];
    && Bracketed(before) && Depth(wire) >= 0
    && (ReadWire(line).Some? && IsEdit(ReadWire(line).value) ==> Depth(before) >= 1)
  }

  /** What vim knows of a buffer besides its text. */
  datatype Status = Status(locked: bool, name: Option<string>)

  const UNKNOWN := Status(false, None)

  /** Reads a quoted text. */
  function ReadQuoted(args: string): Option<string> {
    if args == "" || args[0] != '\"' then None
    else
      var rest := args[1..];
      var q := E.CloseQuote(rest);
      if q == |rest| then None else Some(E.Deescape(rest[..q]))
  }

  predicate IsStatus(r: Request) {
    r.kind == Command && r.name in {"setReadOnly", "editFile", "putBufferNumber", "close"}
  }

  function StatusAfter(st: Status, r: Request): Status {
    if !IsStatus(r) then st
    else if r.name == "close" then UNKNOWN
    else if r.name == "setReadOnly" then st.(locked := r.args == Some("T"))
    else st.(name := if r.args.Some? then ReadQuoted(r.args.value) else None)
  }

  /** The status of buffer `w` after all lines. */
  function BufStatus(wire: seq<string>, w: int): Status {
    if wire == [] then UNKNOWN
    else
      var st := BufStatus(wire[..|wire| - 1], w);
      match ReadWire(wire[|wire| - 1])
      case Some(r) => if r.buf == w then StatusAfter(st, r) else st
      case None => st
  }

  /** No insert or remove meets a buffer that is locked. */
  predicate Permitted(wire: seq<string>) {
    wire == [] ||
    var before, line := wire[..|wire| - 1], ReadWire(wire[|wire| - 1]);
    Permitted(before) && (line.Some? && IsEdit(line.value) ==> !BufStatus(before, line.value.buf).locked)
  }

  /** The buffer and the position to which vim was sent last. */
  function LastDot(wire: seq<string>): Option<(int, string)> {
    if wire == [] then None
    else
      match ReadWire(wire[|wire| - 1])
      case Some(r) => if r.name == "setDot" && r.args.Some? then Some((r.buf, r.args.value)) else LastDot(wire[..|wire| - 1])
      case None => LastDot(wire[..|wire| - 1])
  }

  // ----- what the messages of `vimui` do -----

  predicate Readable(r: Request) {
    r.buf >= 0 && r.number >= 0 && '/' !in r.name && '!' !in r.name
  }

  lemma WireRead(r: Request)
    requires Readable(r)
    ensures ReadWire(Line(r) + "\n") == Some(r)
  {
    hide ReadLine, Line;
    MessageRoundTrip(r);
    var line := Line(r) + "\n";
    assert line[..|line| - 1] == Line(r);
  }

  lemma OneMore(wire: seq<string>, r: Request)
    requires Readable(r)
    ensures var more := wire + [Line(r) + "\n"];
            && (forall w: int :: Replay(more, w) == if r.buf == w then Edited(Replay(wire, w), r) else Replay(wire, w))
            && Depth(more) == Depth(wire) + (if r.name == "startAtomic" then 1 else if r.name == "endAtomic" then -1 else 0)
            && (Bracketed(more) <==> Bracketed(wire) && Depth(more) >= 0 && (IsEdit(r) ==> Depth(wire) >= 1))
  {
    hide Line, ReadWire, Edited, IsEdit;
    WireRead(r);
    var more := wire + [Line(r) + "\n"];
    assert more[..|more| - 1] == wire;
  }

  /** What one more message does to status, permission and position. */
  lemma OneMoreStatus(wire: seq<string>, r: Request)
    requires Readable(r)
    ensures var more := wire + [Line(r) + "\n"];
            && (forall w: int ::
                  BufStatus(more, w) == if r.buf == w then StatusAfter(BufStatus(wire, w), r) else BufStatus(wire, w))
            && (Permitted(more) <==> Permitted(wire) && (IsEdit(r) ==> !BufStatus(wire, r.buf).locked))
            && LastDot(more) == if r.name == "setDot" && r.args.Some? then Some((r.buf, r.args.value)) else LastDot(wire)
  {
    hide Line, ReadWire, StatusAfter, IsEdit;
    WireRead(r);
    var more := wire + [Line(r) + "\n"];
    assert more[..|more| - 1] == wire;
  }

  /** A quoted text is read back. */
  lemma QuotedReads(s: string)
    ensures ReadQuoted("\"" + E.Escape(s) + "\"") == Some(s)
  {
    hide E.Escape, E.Deescape, E.CloseQuote;
    var args := "\"" + E.Escape(s) + "\"";
    var rest := args[1..];
    assert rest == E.Escape(s) + "\"" + "";
    E.CloseQuoteAfterEscape(s, "");
    assert rest[..|E.Escape(s)|] == E.Escape(s);
    E.RoundTrip(s);
  }

  /** A file is opened under its name, and a buffer gets the name that is put together for it. */
  lemma NamesRead(s: string, t: string)
    ensures Good("\"%s\"", [Text(s)]) && ReadQuoted(Expand("\"%s\"", [Text(s)])) == Some(s)
    ensures Good("\"%s/%s\"", [Text(s), Text(t)])
    ensures ReadQuoted(Expand("\"%s/%s\"", [Text(s), Text(t)])) == Some(s + "/" + t)
  {
    hide *;
    QuotedFormat(s);
    QuotedReads(s);
    PathFormat(s, t);
    E.EscapeConcat(s + "/", t);
    E.EscapeConcat(s, "/");
    SlashStays();
    QuotedReads(s + "/" + t);
  }

  lemma SlashStays()
    ensures E.Escape("/") == "/"
  {
    assert "/"[1..] == "";
  }

  lemma PathFormat(s: string, t: string)
    ensures Good("\"%s/%s\"", [Text(s), Text(t)])
    ensures Expand("\"%s/%s\"", [Text(s), Text(t)]) == "\"" + (E.Escape(s) + "/" + E.Escape(t)) + "\""
  {
    hide *;
    TextConverts(s);
    TextConverts(t);
    assert ['\"'] + "" == "\"" && ['%', 's'] + "\"" == "%s\"" && ['/'] + "%s\"" == "/%s\"";
    assert ['%', 's'] + "/%s\"" == "%s/%s\"" && ['\"'] + "%s/%s\"" == "\"%s/%s\"";
    assert [Text(t)] + [] == [Text(t)] && [Text(s)] + [Text(t)] == [Text(s), Text(t)];
    ExpandNothing([]);
    ExpandCharacter('\"', "", []);
    ExpandConversion('s', Text(t), "\"", []);
    ExpandCharacter('/', "%s\"", [Text(t)]);
    ExpandConversion('s', Text(s), "/%s\"", [Text(t)]);
    ExpandCharacter('\"', "%s/%s\"", [Text(s), Text(t)]);
  }

  lemma TextConverts(s: string)
    ensures Converts('s', Text(s)) && Shown('s', Text(s)) == E.Escape(s)
  {
  }

  lemma InsertArguments(at: nat, s: string)
    ensures Good(INSERT, [Int(at), Text(s)]) && ReadInsert(Expand(INSERT, [Int(at), Text(s)])) == Some((at as int, s))
  {
    var tail := E.Escape(s) + "\"";
    var args := N.Signed(at) + (" \"" + tail);
    assert Good(INSERT, [Int(at), Text(s)]) && Expand(INSERT, [Int(at), Text(s)]) == args by {
      InsertFormat(at, s);
    }
    hide *;
    SpanOfNumber(at, " \"" + tail);
    E.CloseQuoteAfterEscape(s, "");
    assert E.Escape(s) + "\"" + "" == tail;
    E.RoundTrip(s);
    ReadInsertIs(args, |N.Signed(at)|, tail, |E.Escape(s)|);
    assert tail[..|E.Escape(s)|] == E.Escape(s);
  }

  lemma InsertFormat(at: nat, s: string)
    ensures Good(INSERT, [Int(at), Text(s)])
    ensures Expand(INSERT, [Int(at), Text(s)]) == N.Signed(at) + (" \"" + (E.Escape(s) + "\""))
  {
    hide E.Escape, N.Signed;
    QuotedFormat(s);
    ExpandCharacter(' ', "\"%s\"", [Text(s)]);
    ExpandConversion('d', Int(at), " \"%s\"", [Text(s)]);
    assert ['%', 'd'] + " \"%s\"" == INSERT && [' '] + "\"%s\"" == " \"%s\"" && [Int(at)] + [Text(s)] == [Int(at), Text(s)];
    assert [' '] + ("\"" + E.Escape(s) + "\"") == " \"" + (E.Escape(s) + "\"");
  }

  lemma ReadInsertIs(args: string, i: nat, rest: string, q: nat)
    requires DigitSpan(args) == i > 0 && i + 2 <= |args| && args[i..] == " \"" + rest
    requires E.CloseQuote(rest) == q < |rest|
    ensures ReadInsert(args) == Some((N.Value(args[..i], 10), E.Deescape(rest[..q])))
  {
    hide N.Value, E.Deescape, E.CloseQuote, DigitSpan;
    assert args[i] == args[i..][0] && args[i + 1] == args[i..][1];
    assert args[i + 2..] == args[i..][2..] == rest;
  }

  lemma RemoveArguments(n: nat)
    ensures Good(REMOVE, [Int(n)]) && ReadRemove(Expand(REMOVE, [Int(n)])) == Some((0 as int, n as int))
  {
    var args := N.Signed(0) + (" " + N.Signed(n));
    assert Good(REMOVE, [Int(n)]) && Expand(REMOVE, [Int(n)]) == args by {
      RemoveFormat(n);
    }
    hide *;
    SpanOfNumber(0, " " + N.Signed(n));
    SpanOfNumber(n, "");
    assert N.Signed(n) + "" == N.Signed(n);
    assert args[|N.Signed(0)|..] == " " + N.Signed(n);
    ReadRemoveIs(args, |N.Signed(0)|, N.Signed(n));
  }

  lemma RemoveFormat(n: nat)
    ensures Good(REMOVE, [Int(n)]) && Expand(REMOVE, [Int(n)]) == N.Signed(0) + (" " + N.Signed(n))
  {
    assert N.Signed(0) == "0";
    hide N.Signed;
    ExpandNothing([]);
    ExpandConversion('d', Int(n), "", []);
    ExpandCharacter(' ', "%d", [Int(n)]);
    ExpandCharacter('0', " %d", [Int(n)]);
    assert ['%', 'd'] + "" == "%d" && [' '] + "%d" == " %d" && ['0'] + " %d" == REMOVE && [Int(n)] + [] == [Int(n)];
    assert ['0'] + ([' '] + (N.Signed(n) + "")) == "0" + (" " + N.Signed(n));
  }

  lemma ReadRemoveIs(args: string, i: nat, rest: string)
    requires DigitSpan(args) == i > 0 && i + 1 <= |args| && args[i..] == " " + rest
    requires DigitSpan(rest) == |rest| > 0
    ensures ReadRemove(args) == Some((N.Value(args[..i], 10), N.Value(rest, 10)))
  {
    hide N.Value, DigitSpan;
    assert args[i] == args[i..][0];
    assert args[i + 1..] == args[i..][1..] == rest;
  }

  /** An insert at the end appends. */
  lemma InsertAppends(text: string, buf: int, number: int, s: string)
    ensures Good(INSERT, [Int(|text|), Text(s)])
    ensures Edited(text, RequestFor(Function, "insert", buf, number, INSERT, [Int(|text|), Text(s)])) == text + s
  {
    hide Expand, ReadInsert, Good;
    InsertArguments(|text|, s);
    assert text[..|text|] + s + text[|text|..] == text + s;
  }

  /** A remove of the whole length empties. */
  lemma RemoveEmpties(text: string, buf: int, number: int)
    ensures Good(REMOVE, [Int(|text|)])
    ensures Edited(text, RequestFor(Function, "remove", buf, number, REMOVE, [Int(|text|)])) == ""
  {
    hide Expand, ReadRemove, Good;
    RemoveArguments(|text|);
  }
}

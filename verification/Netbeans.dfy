/**
 * Messages to vim: the line buffer of `socket::send` and the netbeans messages that `vimui::action` builds with it,
 * together with a reader of such messages.
 */
module Netbeans {
  import opened Options
  import opened CStrings
  import E = Escape
  import N = Numbers

  // ----- the line buffer -----

  /** A buffer that starts with one text, and goes on with another. */
  lemma Appends(s: seq<char>, a: string, b: string)
    requires |a| + |b| <= |s| && (forall k | 0 <= k < |a| :: s[k] == a[k]) && (forall k | 0 <= k < |b| :: s[|a| + k] == b[k])
    ensures s[..|a| + |b|] == a + b
  {
    forall k | |a| <= k < |a| + |b|
      ensures s[k] == b[k - |a|]
    {
      assert s[|a| + (k - |a|)] == b[k - |a|];
    }
  }


  class Socket {
    var sbuf: array<char>
    var idx: nat
    /** The payloads handed to the network. */
    var wire: seq<string>

    ghost predicate Valid()
      reads this
    {
      idx < sbuf.Length
    }

    /** What is collected for the next payload. */
    ghost function Pending(): string
      requires Valid()
      reads this, sbuf
    {
      sbuf[..idx]
    }

    constructor ()
      ensures Valid() && Pending() == "" && wire == [] && fresh(sbuf)
    {
      sbuf := new char[256];
      idx, wire := 0, [];
    }

    /** The `realloc` before `size` characters are appended. */
    method Grow(size: nat)
      requires Valid()
      modifies `sbuf
      ensures Valid() && (sbuf == old(sbuf) || fresh(sbuf)) && Pending() == old(Pending()) && idx + size < sbuf.Length
    {
      if idx + size >= sbuf.Length {
        var larger := new char[sbuf.Length + size + 256];
        forall i | 0 <= i < idx {
          larger[i] := sbuf[i];
        }
        assert larger[..idx] == sbuf[..idx];
        sbuf := larger;
      }
    }

    /** The copy behind the pending text. */
    method Put(data: string)
      requires Valid() && idx + |data| < sbuf.Length
      modifies sbuf, `idx
      ensures Valid() && Pending() == old(Pending()) + data
    {
      ghost var before := Pending();
      forall i | 0 <= i < |data| {
        sbuf[idx + i] := data[i];
      }
      Appends(sbuf[..], before, data);
      idx := idx + |data|;
      assert sbuf[..idx] == sbuf[..][..idx];
    }

    /** Text is collected until its last character is a newline. */
    method Send(data: string)
      requires Valid() && (data != "" || idx > 0)
      modifies this, sbuf
      ensures Valid() && (sbuf == old(sbuf) || fresh(sbuf))
      ensures var all := old(Pending()) + data;
              if all[|all| - 1] == '\n' then Pending() == "" && wire == old(wire) + [all]
              else Pending() == all && wire == old(wire)
    {
      Grow(|data|);
      Put(data);
      if sbuf[idx - 1] == '\n' {
        wire := wire + [sbuf[..idx]];
        idx := 0;
      }
    }

    /** A piece of a line. */
    method SendPart(data: string)
      requires Valid() && (data != "" || idx > 0) && '\n' !in Pending() && '\n' !in data
      modifies this, sbuf
      ensures Valid() && (sbuf == old(sbuf) || fresh(sbuf))
      ensures Pending() == old(Pending()) + data && idx == old(idx) + |data| && '\n' !in Pending() && wire == old(wire)
    {
      Send(data);
    }
  }

  // ----- formats -----

  datatype Arg = Int(v: int) | Text(s: string)

  /** The arguments are of the number and types that the format asks for; a caller's duty in the source. */
  predicate Fits(fmt: string, args: seq<Arg>) {
    if fmt == "" then args == []
    else if fmt[0] != '%' then Fits(fmt[1..], args)
    else if |fmt| >= 2 && (fmt[1] == 'd' || fmt[1] == 'i' || fmt[1] == 'u') then
      args != [] && args[0].Int? && Fits(fmt[2..], args[1..])
    else if |fmt| >= 2 && fmt[1] == 's' then args != [] && args[0].Text? && Fits(fmt[2..], args[1..])
    else true
  }

  /** Every `%` is followed by a conversion that `action` knows. */
  predicate Accepted(fmt: string) {
    if fmt == "" then true
    else if fmt[0] != '%' then Accepted(fmt[1..])
    else |fmt| >= 2 && fmt[1] in "diu" + "s" && Accepted(fmt[2..])
  }

  predicate Good(fmt: string, args: seq<Arg>) {
    Accepted(fmt) && Fits(fmt, args)
  }

  /** A negative number given for an unsigned conversion wraps around. */
  function Shown(c: char, a: Arg): string {
    match a
    case Int(v) => N.Signed(if c == 'u' then v % 0x1_0000_0000 else v)
    case Text(s) => E.Escape(s)
  }

  function Expand(fmt: string, args: seq<Arg>): string
    requires Good(fmt, args)
  {
    if fmt == "" then ""
    else if fmt[0] != '%' then [fmt[0]] + Expand(fmt[1..], args)
    else Shown(fmt[1], args[0]) + Expand(fmt[2..], args[1..])
  }

  lemma {:induction false} PlainEscape(s: string)
    ensures '\n' !in E.Escape(s)
  {
    E.NoRawControl(s);
  }

  lemma PlainSigned(v: int)
    ensures '\n' !in N.Signed(v) && N.Signed(v) != ""
  {
    N.DigitsPlain(if v < 0 then -v else v, 10);
  }

  /** No argument brings a newline into the line. */
  lemma PlainShown(c: char, a: Arg)
    ensures '\n' !in Shown(c, a)
  {
    match a
    case Int(v) => PlainSigned(if c == 'u' then v % 0x1_0000_0000 else v);
    case Text(s) => PlainEscape(s);
  }

  /** What the conversions print: `%u` wraps to 32 bits, `%d` and `%i` keep the sign, `%s` escapes. */
  lemma ShownReads(v: int, s: string)
    ensures N.Value(Shown('u', Int(v)), 10) == v % 0x1_0000_0000 && N.IsHex(Shown('u', Int(v)))
    ensures forall c <- "di" ::
              && (v >= 0 ==> N.Value(Shown(c, Int(v)), 10) == v && N.IsHex(Shown(c, Int(v))))
              && (v < 0 ==> Shown(c, Int(v))[0] == '-' && N.Value(Shown(c, Int(v))[1..], 10) == -v)
    ensures E.Deescape(Shown('s', Text(s))) == s
  {
    hide N.Signed, N.Value, N.IsHex, E.Escape, E.Deescape;
    N.SignedReads(v);
    N.SignedReads(v % 0x1_0000_0000);
    E.RoundTrip(s);
  }

  lemma {:induction false} PlainExpand(fmt: string, args: seq<Arg>)
    requires Good(fmt, args) && '\n' !in fmt
    ensures '\n' !in Expand(fmt, args)
    decreases |fmt|
  {
    hide Shown;
    if fmt != "" {
      if fmt[0] != '%' {
        PlainExpand(fmt[1..], args);
      } else {
        PlainShown(fmt[1], args[0]);
        PlainExpand(fmt[2..], args[1..]);
      }
    }
  }

  lemma ExpandNothing(args: seq<Arg>)
    ensures Good("", args) <==> args == []
    ensures Expand("", []) == ""
  {
  }

  lemma ExpandCharacter(c: char, fmt: string, args: seq<Arg>)
    requires c != '%' && Good(fmt, args)
    ensures Good([c] + fmt, args) && Expand([c] + fmt, args) == [c] + Expand(fmt, args)
  {
    assert ([c] + fmt)[1..] == fmt;
  }

  predicate Converts(c: char, arg: Arg) {
    if arg.Int? then c == 'd' || c == 'i' || c == 'u' else c == 's'
  }

  lemma ExpandConversion(c: char, arg: Arg, fmt: string, args: seq<Arg>)
    requires Converts(c, arg) && Good(fmt, args)
    ensures Good(['%', c] + fmt, [arg] + args)
    ensures Expand(['%', c] + fmt, [arg] + args) == Shown(c, arg) + Expand(fmt, args)
  {
    hide Shown;
    assert (['%', c] + fmt)[2..] == fmt && ([arg] + args)[1..] == args;
  }

  /** A good format starts with a character or a conversion. */
  lemma FirstPiece(fmt: string, args: seq<Arg>)
    requires Good(fmt, args) && fmt != ""
    ensures fmt[0] != '%' ==> Good(fmt[1..], args) && fmt == [fmt[0]] + fmt[1..]
    ensures fmt[0] == '%' ==>
              |fmt| >= 2 && args != [] && Converts(fmt[1], args[0]) && Good(fmt[2..], args[1..]) &&
              fmt == ['%', fmt[1]] + fmt[2..] && args == [args[0]] + args[1..]
  {
  }

  /** Formats can be expanded piece by piece. */
  lemma {:induction false} ExpandConcat(f: string, a: seq<Arg>, g: string, b: seq<Arg>)
    requires Good(f, a) && Good(g, b)
    ensures Good(f + g, a + b) && Expand(f + g, a + b) == Expand(f, a) + Expand(g, b)
    decreases |f|
  {
    hide *;
    ExpandNothing(a);
    if f == "" {
      assert f + g == g && a + b == b;
    } else {
      FirstPiece(f, a);
      if f[0] != '%' {
        assert f + g == [f[0]] + (f[1..] + g);
        ExpandConcat(f[1..], a, g, b);
        ExpandCharacter(f[0], f[1..], a);
        ExpandCharacter(f[0], f[1..] + g, a + b);
      } else {
        assert f + g == ['%', f[1]] + (f[2..] + g) && a + b == [a[0]] + (a[1..] + b);
        ExpandConcat(f[2..], a[1..], g, b);
        ExpandConversion(f[1], a[0], f[2..], a[1..]);
        ExpandConversion(f[1], a[0], f[2..] + g, a[1..] + b);
      }
    }
  }

  /**
   * A quoted text argument, wherever it stands in a message, is recovered by reading up to the first quote that no
   * escape sequence covers and de-escaping.
   */
  lemma QuotedArgument(f: string, a: seq<Arg>, s: string, g: string, b: seq<Arg>)
    requires Good(f, a) && Good(g, b)
    ensures var fmt, args := f + "\"%s\"" + g, a + [Text(s)] + b;
            && Good(fmt, args)
            && |Expand(f, a)| < |Expand(fmt, args)|
            && var rest := Expand(fmt, args)[|Expand(f, a)| + 1..];
               E.CloseQuote(rest) < |rest| && E.Deescape(rest[..E.CloseQuote(rest)]) == s
  {
    hide *;
    var q := "\"%s\"";
    QuotedFormat(s);
    ExpandConcat(f, a, q, [Text(s)]);
    ExpandConcat(f + q, a + [Text(s)], g, b);
    var all := Expand(f + q + g, a + [Text(s)] + b);
    var tail := Expand(g, b);
    assert all == Expand(f, a) + ("\"" + (E.Escape(s) + "\"" + tail));
    var rest := all[|Expand(f, a)| + 1..];
    assert rest == E.Escape(s) + "\"" + tail;
    E.CloseQuoteAfterEscape(s, tail);
    assert rest[..E.CloseQuote(rest)] == E.Escape(s);
    E.RoundTrip(s);
  }

  lemma QuotedFormat(s: string)
    ensures Good("\"%s\"", [Text(s)])
    ensures Expand("\"%s\"", [Text(s)]) == "\"" + E.Escape(s) + "\""
  {
    hide E.Escape;
    ExpandNothing([]);
    ExpandCharacter('\"', "", []);
    ExpandConversion('s', Text(s), "\"", []);
    ExpandCharacter('\"', "%s\"", [Text(s)]);
    assert "\"" + "" == "\"" && ['%', 's'] + "\"" == "%s\"" && ['\"'] + "%s\"" == "\"%s\"";
    assert [Text(s)] + [] == [Text(s)];
  }

  // ----- messages -----

  datatype Kind = Function | Command

  datatype Request = Request(buf: int, name: string, kind: Kind, number: int, args: Option<string>)

  function Separator(kind: Kind): char {
    if kind == Function then '/' else '!'
  }

  function Head(r: Request): string {
    N.Signed(r.buf) + ":" + r.name + [Separator(r.kind)] + N.Signed(r.number)
  }

  /** A message, without the newline that ends it. */
  function Line(r: Request): string {
    Head(r) + if r.args.Some? then " " + r.args.value else ""
  }

  function RequestFor(kind: Kind, name: string, buf: int, number: int, fmt: string, args: seq<Arg>): Request
    requires Good(fmt, args)
  {
    Request(buf, name, kind, number, if fmt == "" then None else Some(Expand(fmt, args)))
  }

  predicate IsDigit(c: char) {
    '0' <= c <= '9'
  }

  /** The number of digits at the start. */
  function DigitSpan(s: string): (n: nat)
    ensures n <= |s| && forall k | 0 <= k < n :: IsDigit(s[k])
  {
    if s != "" && IsDigit(s[0]) then 1 + DigitSpan(s[1..]) else 0
  }

  function NameSpan(s: string): (n: nat)
    ensures n <= |s| && (n < |s| ==> s[n] == '/' || s[n] == '!')
  {
    if s == "" || s[0] == '/' || s[0] == '!' then 0 else 1 + NameSpan(s[1..])
  }

  /** Reads a message: buffer, colon, name, kind, number, arguments. */
  function ReadLine(s: string): Option<Request> {
    var i := DigitSpan(s);
    if i == 0 || i == |s| || s[i] != ':' then None else ReadName(N.Value(s[..i], 10), s[i + 1..])
  }

  /** What is behind the buffer number. */
  function ReadName(buf: int, s: string): Option<Request> {
    var i := NameSpan(s);
    if i == |s| then None
    else ReadNumber(buf, s[..i], if s[i] == '/' then Function else Command, s[i + 1..])
  }

  /** What is behind name and kind. */
  function ReadNumber(buf: int, name: string, kind: Kind, s: string): Option<Request> {
    var i := DigitSpan(s);
    if i == 0 || (i < |s| && s[i] != ' ') then None
    else Some(Request(buf, name, kind, N.Value(s[..i], 10), if i == |s| then None else Some(s[i + 1..])))
  }

  lemma {:induction false} DigitsAreDigits(n: nat)
    ensures forall k | 0 <= k < |N.Digits(n, 10)| :: IsDigit(N.Digits(n, 10)[k])
    decreases n
  {
    N.DigitsUnfold(n, 10);
    if n >= 10 {
      DigitsAreDigits(n / 10);
    }
  }

  lemma {:induction false} SpanOfDigits(d: string, rest: string)
    requires forall k | 0 <= k < |d| :: IsDigit(d[k])
    requires rest == "" || !IsDigit(rest[0])
    ensures DigitSpan(d + rest) == |d|
  {
    if d == "" {
      assert d + rest == rest;
    } else {
      assert (d + rest)[1..] == d[1..] + rest;
      SpanOfDigits(d[1..], rest);
    }
  }

  /** A number followed by something else is read back. */
  lemma SpanOfNumber(n: nat, rest: string)
    requires rest == "" || !IsDigit(rest[0])
    ensures var s := N.Signed(n) + rest;
            DigitSpan(s) == |N.Signed(n)| > 0 && s[..DigitSpan(s)] == N.Signed(n) && s[DigitSpan(s)..] == rest
    ensures N.Value(N.Signed(n), 10) == n
  {
    DigitsAreDigits(n);
    SpanOfDigits(N.Digits(n, 10), rest);
    N.ValueOfDigits(n, 10);
  }

  lemma {:induction false} SpanOfName(name: string, rest: string)
    requires '/' !in name && '!' !in name && rest != "" && (rest[0] == '/' || rest[0] == '!')
    ensures NameSpan(name + rest) == |name|
  {
    if name == "" {
      assert name + rest == rest;
    } else {
      assert (name + rest)[1..] == name[1..] + rest;
      assert name[0] in name;
      SpanOfName(name[1..], rest);
    }
  }

  /** Every message is read back as the request it was made for. */
  lemma MessageRoundTrip(r: Request)
    requires r.buf >= 0 && r.number >= 0 && '/' !in r.name && '!' !in r.name
    ensures ReadLine(Line(r)) == Some(r)
  {
    hide *;
    var tail := if r.args.Some? then " " + r.args.value else "";
    var b, n, c := N.Signed(r.buf), N.Signed(r.number), Separator(r.kind);
    var u := n + tail;
    var t := r.name + ([c] + u);
    var s := b + ([':'] + t);
    LineParts(r, tail);
    SpanOfNumber(r.buf, [':'] + t);
    SpanOfName(r.name, [c] + u);
    SpanOfNumber(r.number, tail);
    ReadAssembled(s, t, u, b, r.name, c, n, tail);
    assert r.args.Some? ==> tail[1..] == r.args.value;
  }

  lemma ReadAssembled(s: string, t: string, u: string, b: string, name: string, c: char, n: string, tail: string)
    requires s == b + ([':'] + t) && t == name + ([c] + u) && u == n + tail
    requires DigitSpan(s) == |b| > 0 && NameSpan(t) == |name| && DigitSpan(u) == |n| > 0
    requires tail == "" || tail[0] == ' '
    ensures ReadLine(s) ==
            Some(Request(N.Value(b, 10), name, if c == '/' then Function else Command, N.Value(n, 10),
                           if tail == "" then None else Some(tail[1..])))
  {
    hide *;
    LineAssembled(s, b, t);
    NameAssembled(N.Value(b, 10), t, name, c, u);
    NumberAssembled(N.Value(b, 10), name, if c == '/' then Function else Command, u, n, tail);
  }

  lemma LineAssembled(s: string, b: string, t: string)
    requires s == b + ([':'] + t) && DigitSpan(s) == |b| > 0
    ensures ReadLine(s) == ReadName(N.Value(b, 10), t)
  {
    hide DigitSpan, ReadName, N.Value;
    assert s[..|b|] == b && s[|b| + 1..] == t;
  }

  lemma NameAssembled(buf: int, t: string, name: string, c: char, u: string)
    requires t == name + ([c] + u) && NameSpan(t) == |name|
    ensures ReadName(buf, t) == ReadNumber(buf, name, if c == '/' then Function else Command, u)
  {
    hide NameSpan, ReadNumber;
    assert t[..|name|] == name && t[|name| + 1..] == u;
  }

  lemma NumberAssembled(buf: int, name: string, kind: Kind, u: string, n: string, tail: string)
    requires u == n + tail && DigitSpan(u) == |n| > 0 && (tail == "" || tail[0] == ' ')
    ensures ReadNumber(buf, name, kind, u) ==
            Some(Request(buf, name, kind, N.Value(n, 10), if tail == "" then None else Some(tail[1..])))
  {
    hide DigitSpan, N.Value;
    assert u[..|n|] == n && (tail != "" ==> u[|n| + 1..] == tail[1..]);
  }

  lemma LineParts(r: Request, tail: string)
    requires tail == if r.args.Some? then " " + r.args.value else ""
    ensures Line(r) == N.Signed(r.buf) + ([':'] + (r.name + ([Separator(r.kind)] + (N.Signed(r.number) + tail))))
    ensures tail == "" || !IsDigit(tail[0])
    ensures !IsDigit(':') && Separator(r.kind) == (if r.kind == Function then '/' else '!')
    ensures r.args.Some? ==> tail[0] == ' '
  {
    hide N.Signed;
  }

  // ----- sending messages -----

  /** What `Expand` still has to do after the first `i` characters of the format and `j` arguments. */
  ghost predicate Rest(fmt: string, args: seq<Arg>, i: nat, j: nat) {
    i <= |fmt| && j <= |args| && Fits(fmt[i..], args[j..]) && (Accepted(fmt) <==> Accepted(fmt[i..]))
  }

  ghost function Todo(fmt: string, args: seq<Arg>, i: nat, j: nat): string
    requires Rest(fmt, args, i, j)
  {
    if Accepted(fmt) then Expand(fmt[i..], args[j..]) else ""
  }

  lemma AllTodo(fmt: string, args: seq<Arg>)
    requires Fits(fmt, args)
    ensures Rest(fmt, args, 0, 0) && (Accepted(fmt) ==> Good(fmt, args) && Todo(fmt, args, 0, 0) == Expand(fmt, args))
  {
    assert fmt[0..] == fmt && args[0..] == args;
  }

  /** There is a conversion at `i`. */
  predicate Conversion(fmt: string, i: nat) {
    i + 1 < |fmt| && (fmt[i + 1] == 'd' || fmt[i + 1] == 'i' || fmt[i + 1] == 'u' || fmt[i + 1] == 's')
  }

  lemma NextCharacter(fmt: string, args: seq<Arg>, i: nat, j: nat)
    requires Rest(fmt, args, i, j) && i < |fmt| && fmt[i] != '%'
    ensures Rest(fmt, args, i + 1, j)
    ensures Accepted(fmt) ==> Expand(fmt[i..], args[j..]) == [fmt[i]] + Expand(fmt[i + 1..], args[j..])
  {
    assert fmt[i..][1..] == fmt[i + 1..];
  }

  lemma NextConversion(fmt: string, args: seq<Arg>, i: nat, j: nat)
    requires Rest(fmt, args, i, j) && i < |fmt| && fmt[i] == '%'
    ensures Accepted(fmt) ==> Conversion(fmt, i)
    ensures Conversion(fmt, i) ==> j < |args| && Rest(fmt, args, i + 2, j + 1)
    ensures Accepted(fmt) ==> Expand(fmt[i..], args[j..]) == Shown(fmt[i + 1], args[j]) + Expand(fmt[i + 2..], args[j + 1..])
  {
    hide Shown;
    if i + 2 <= |fmt| {
      assert fmt[i..][2..] == fmt[i + 2..] && fmt[i..][1] == fmt[i + 1];
      if j < |args| {
        assert args[j..][1..] == args[j + 1..];
      }
    }
  }

  class Connection {
    const client: Socket
    var seqNum: int

    ghost predicate Ready()
      reads this, client, client.sbuf
    {
      client.Valid() && client.Pending() == "" && seqNum >= 0
    }

    constructor (client: Socket)
      requires client.Valid() && client.Pending() == ""
      ensures Ready() && this.client == client && seqNum == 1
    {
      this.client, seqNum := client, 1;
    }

    lemma Starts()
      requires Ready()
      ensures client.Valid() && client.Pending() == "" && client.idx == 0
    {
    }

    /** The header of a message; the number is that of the message. */
    method SendHeader(kind: Kind, name: string, buf: int)
      requires Ready() && '\n' !in name
      modifies `seqNum, client, client.sbuf
      ensures client.Valid() && (client.sbuf == old(client.sbuf) || fresh(client.sbuf))
      ensures seqNum == old(seqNum) + 1 && client.wire == old(client.wire)
      ensures client.Pending() == Head(Request(buf, name, kind, seqNum, None)) && '\n' !in client.Pending()
      ensures client.idx > 0
    {
      hide *;
      Starts();
      HeadIs(kind, name, buf, seqNum + 1);
      PlainSigned(buf);
      PlainSigned(seqNum + 1);
      assert "" + N.Signed(buf) == N.Signed(buf);
      client.SendPart(N.Signed(buf));
      client.SendPart(":");
      client.SendPart(name);
      client.SendPart([Separator(kind)]);
      seqNum := seqNum + 1;
      client.SendPart(N.Signed(seqNum));
    }

    /** One round of the loop over the format: a character or a conversion. */
    method SendPiece(fmt: string, args: seq<Arg>, i: nat, j: nat) returns (ok: bool, i': nat, j': nat, ghost piece: string)
      requires client.Valid() && client.idx > 0 && '\n' !in client.Pending() && '\n' !in fmt
      requires Rest(fmt, args, i, j) && i < |fmt|
      modifies client, client.sbuf
      ensures client.Valid() && (client.sbuf == old(client.sbuf) || fresh(client.sbuf))
      ensures client.wire == old(client.wire) && client.idx > 0 && '\n' !in client.Pending()
      ensures ok <== Accepted(fmt)
      ensures ok ==> i < i' <= |fmt| && Rest(fmt, args, i', j') && client.Pending() == old(client.Pending()) + piece
      ensures Accepted(fmt) ==> Todo(fmt, args, i, j) == piece + Todo(fmt, args, i', j')
    {
      hide Fits, Accepted, Expand, Shown;
      i', j', ok := i, j, true;
      if fmt[i'] == '%' {
        NextConversion(fmt, args, i, j);
        i' := i' + 1;
        if i' < |fmt| && (fmt[i'] == 'd' || fmt[i'] == 'i' || fmt[i'] == 'u' || fmt[i'] == 's') {
          piece := Shown(fmt[i'], args[j]);
          PlainShown(fmt[i'], args[j]);
          client.SendPart(Shown(fmt[i'], args[j]));
          j' := j' + 1;
        } else {
          return false, i', j', "";
        }
      } else {
        NextCharacter(fmt, args, i, j);
        piece := [fmt[i]];
        client.SendPart([fmt[i]]);
      }
      i' := i' + 1;
    }

    /** The loop over the format. */
    method SendArguments(fmt: string, args: seq<Arg>) returns (ok: bool)
      requires client.Valid() && client.idx > 0 && '\n' !in client.Pending() && '\n' !in fmt && Fits(fmt, args)
      modifies client, client.sbuf
      ensures client.Valid() && (client.sbuf == old(client.sbuf) || fresh(client.sbuf))
      ensures ok == Accepted(fmt) && client.wire == old(client.wire) && client.idx > 0 && '\n' !in client.Pending()
      ensures ok ==> client.Pending() == old(client.Pending()) + Expand(fmt, args)
    {
      hide *;
      AllTodo(fmt, args);
      ghost var start, done, good := client.Pending(), "", Accepted(fmt);
      ghost var all := Todo(fmt, args, 0, 0);
      var i: nat, j: nat := 0, 0;
      while i < |fmt|
        invariant i <= |fmt| && Rest(fmt, args, i, j)
        invariant client.Valid() && (client.sbuf == old(client.sbuf) || fresh(client.sbuf))
        invariant client.wire == old(client.wire) && client.idx > 0 && '\n' !in client.Pending()
        invariant client.Pending() == start + done
        invariant good ==> all == done + Todo(fmt, args, i, j)
      {
        ghost var piece;
        ok, i, j, piece := SendPiece(fmt, args, i, j);
        if !ok {
          return;
        }
        done := done + piece;
      }
      Ended(fmt, args, i, j);
      assert done + "" == done;
      return true;
    }

    /**
     * `action`: an accepted message leaves the socket's buffer empty and puts exactly one line on the wire; a negative
     * buffer sends nothing; a format that is not accepted leaves its beginning in the buffer.
     */
    method Action(kind: Kind, name: string, buf: int, fmt: string, args: seq<Arg>) returns (r: int)
      requires Ready() && '\n' !in name && '\n' !in fmt && Fits(fmt, args)
      modifies `seqNum, client, client.sbuf
      ensures client.Valid() && (client.sbuf == old(client.sbuf) || fresh(client.sbuf))
      ensures r == if buf >= 0 && Accepted(fmt) then 0 else -1
      ensures seqNum == old(seqNum) + if buf >= 0 then 1 else 0
      ensures if r == 0 then
                var line := Line(RequestFor(kind, name, buf, seqNum, fmt, args));
                Ready() && client.wire == old(client.wire) + [line + "\n"] && '\n' !in line
              else client.wire == old(client.wire) && (Ready() <==> buf < 0)
    {
      hide N.Signed, Accepted, Fits, Expand, Line, RequestFor, Head;
      if buf < 0 {
        return -1;
      }
      SendHeader(kind, name, buf);
      ghost var head := client.Pending();
      NoFormat(args);
      if |fmt| > 0 {
        client.SendPart(" ");
      }
      var ok := SendArguments(fmt, args);
      if !ok {
        return -1;
      }
      LineIs(kind, name, buf, seqNum, fmt, args, head);
      client.Send("\n");
      return 0;
    }
  }

  lemma LineIs(kind: Kind, name: string, buf: int, number: int, fmt: string, args: seq<Arg>, head: string)
    requires Good(fmt, args) && head == Head(Request(buf, name, kind, number, None))
    ensures Line(RequestFor(kind, name, buf, number, fmt, args)) ==
            (if |fmt| > 0 then head + " " else head) + Expand(fmt, args)
  {
    hide N.Signed;
    if fmt == "" {
      NoFormat(args);
    }
  }

  lemma HeadIs(kind: Kind, name: string, buf: int, number: int)
    ensures Head(Request(buf, name, kind, number, None)) ==
            N.Signed(buf) + ":" + name + [Separator(kind)] + N.Signed(number)
    ensures '\n' != Separator(kind)
  {
    hide N.Signed;
  }

  lemma NoFormat(args: seq<Arg>)
    ensures Accepted("") && (Fits("", args) ==> args == []) && Expand("", []) == ""
  {
  }

  lemma Ended(fmt: string, args: seq<Arg>, i: nat, j: nat)
    requires Rest(fmt, args, i, j) && i == |fmt|
    ensures Accepted(fmt) && Todo(fmt, args, i, j) == ""
  {
  }
}

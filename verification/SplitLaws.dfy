/** What holds of `strsplit` on every line: when its two passes agree, and that it undoes quoting. */
module SplitLaws {
  import E = Escape
  import opened Split

  /** From `i` on, no escaped backslash stands directly before a quote. */
  predicate Clean(line: string, i: nat)
    requires i <= |line|
    decreases |line| - i
  {
    i == |line| ||
    (!(line[i] == '\\' && i + 2 < |line| && line[i + 1] == '\\' && line[i + 2] == '\"') &&
     Clean(line, i + Step(Filling, line, i)))
  }

  /** Positions of the quotes at which a pass changes its quoted mode. */
  function Toggles(p: Pass, line: string, i: nat): (r: set<nat>)
    requires i <= |line|
    ensures forall k <- r :: i <= k < |line|
    decreases |line| - i
  {
    if i == |line| then {}
    else (if line[i] == '\"' then {i} else {}) + Toggles(p, line, i + Step(p, line, i))
  }

  /** Where the counting pass stands when the filling pass has taken one more step. */
  lemma CountingCatchesUp(line: string, i: nat, quoted: bool)
    requires i < |line| && line[i] != '\"' && (quoted || line[i] != ' ')
    requires !(line[i] == '\\' && i + 2 < |line| && line[i + 1] == '\\' && line[i + 2] == '\"')
    ensures var w := Step(Filling, line, i);
            ArgEnd(Counting, line, i, quoted) == ArgEnd(Counting, line, i + w, quoted) &&
            Toggles(Counting, line, i) == Toggles(Counting, line, i + w)
  {
    if Step(Filling, line, i) == 2 && line[i + 1] != '\"' {
      assert Step(Counting, line, i) == 1;
      assert Step(Counting, line, i + 1) == 1;
    }
  }

  lemma {:induction false} PassesScanAlike(line: string, i: nat, quoted: bool)
    requires i <= |line| && Clean(line, i)
    ensures var e := ArgEnd(Filling, line, i, quoted);
            ArgEnd(Counting, line, i, quoted) == e && (e <= |line| ==> Clean(line, e))
    decreases |line| - i
  {
    if i < |line| {
      if line[i] == '\"' {
        PassesScanAlike(line, i + 1, !quoted);
      } else if line[i] != ' ' || quoted {
        CountingCatchesUp(line, i, quoted);
        PassesScanAlike(line, i + Step(Filling, line, i), quoted);
      }
    }
  }

  lemma {:induction false} CleanAfterBlanks(line: string, i: nat)
    requires i <= |line| && Clean(line, i)
    ensures Clean(line, SkipBlanks(line, i))
    decreases |line| - i
  {
    if i < |line| && line[i] == ' ' {
      CleanAfterBlanks(line, i + 1);
    }
  }

  lemma {:induction false} SpansAlike(line: string, i: nat)
    requires i <= |line| && Clean(line, i)
    ensures Spans(Counting, line, i) == Spans(Filling, line, i)
    decreases |line| - i
  {
    hide Spans, ArgEnd, SkipBlanks, Clean;
    SpansUnfold(Counting, line, i);
    SpansUnfold(Filling, line, i);
    CleanAfterBlanks(line, i);
    var b := SkipBlanks(line, i);
    if b < |line| {
      PassesScanAlike(line, b, false);
      var e := ArgEnd(Filling, line, b, false);
      if e <= |line| {
        SpansAlike(line, e);
      }
    }
  }

  /** On clean lines the counting pass sizes `argv` exactly, so nothing is written past its end. */
  lemma CleanLinesFit(line: string)
    requires Clean(line, 0)
    ensures CountedArguments(line) == |Arguments(line)|
  {
    SpansAlike(line, 0);
  }

  /** The passes disagree on which quotes toggle the mode exactly on the lines that are not clean. */
  lemma {:induction false} SameTogglesIffClean(line: string, i: nat)
    requires i <= |line|
    ensures Toggles(Counting, line, i) == Toggles(Filling, line, i) <==> Clean(line, i)
    decreases |line| - i
  {
    if i < |line| {
      var w := Step(Filling, line, i);
      if line[i] == '\\' && i + 2 < |line| && line[i + 1] == '\\' && line[i + 2] == '\"' {
        assert Step(Filling, line, i + 2) == 1;
        assert Step(Counting, line, i + 1) == 2;
        assert i + 2 in Toggles(Filling, line, i + 2);
        assert i + 2 !in Toggles(Counting, line, i);
      } else if line[i] == '\"' {
        assert i !in Toggles(Counting, line, i + 1) && i !in Toggles(Filling, line, i + 1);
        SameTogglesIffClean(line, i + 1);
        assert Toggles(Counting, line, i + 1) == Toggles(Counting, line, i) - {i};
        assert Toggles(Filling, line, i + 1) == Toggles(Filling, line, i) - {i};
      } else {
        CountingCatchesUp(line, i, true);
        SameTogglesIffClean(line, i + w);
      }
    }
  }

  /** Lines without two adjacent backslashes are clean. */
  lemma {:induction false} NoDoubleBackslashIsClean(line: string, i: nat)
    requires i <= |line|
    requires forall k | 0 <= k < |line| - 1 :: !(line[k] == '\\' && line[k + 1] == '\\')
    ensures Clean(line, i)
    decreases |line| - i
  {
    if i < |line| {
      NoDoubleBackslashIsClean(line, i + Step(Filling, line, i));
    }
  }

  /** Four characters that overrun `argv`: a quoted, escaped backslash. */
  lemma OverrunExample()
    ensures CountedArguments("\"\\\\\"") == 0
    ensures Arguments("\"\\\\\"") == ["\\"]
  {
    var line := "\"\\\\\"";
    assert ArgEnd(Counting, line, 2, true) == 5;
    assert ArgEnd(Counting, line, 0, false) == 5;
    assert ArgEnd(Filling, line, 3, true) == 4;
    assert ArgEnd(Filling, line, 0, false) == 4;
    assert Spans(Filling, line, 0) == [(0, 4)];
    assert Text(line, 3, 4) == "";
    assert Text(line, 1, 4) == "\\";
    assert Text(line, 0, 4) == "\\";
  }

  // ----- quoting -----

  function Quoted(a: string): string {
    "\"" + (E.Escape(a) + "\"")
  }

  /** Every argument escaped and wrapped in quotes, joined by single blanks. */
  function QuotedLine(args: seq<string>): string {
    if args == [] then "" else Quoted(args[0]) + Tail(args)
  }

  /** What `QuotedLine` puts behind the first argument. */
  function Tail(args: seq<string>): string
    requires args != []
    decreases args, 0
  {
    if |args| == 1 then "" else " " + QuotedLine(args[1..])
  }

  predicate EndsInBackslash(a: string) {
    a != "" && a[|a| - 1] == '\\'
  }

  /** `line` reads `w` at position `i`. */
  predicate Reads(line: string, i: nat, w: string) {
    i + |w| <= |line| && forall k | 0 <= k < |w| :: line[i + k] == w[k]
  }

  lemma ReadsConcat(line: string, i: nat, u: string, v: string)
    requires Reads(line, i, u + v)
    ensures Reads(line, i, u) && Reads(line, i + |u|, v)
  {
    forall k | 0 <= k < |u|
      ensures line[i + k] == u[k]
    {
      assert (u + v)[k] == u[k];
    }
    forall k | 0 <= k < |v|
      ensures line[i + |u| + k] == v[k]
    {
      assert (u + v)[|u| + k] == v[k];
    }
  }

  lemma ReadsChar(line: string, i: nat, c: char)
    requires Reads(line, i, E.EscapeChar(c))
    ensures if E.Special(c) then i + 1 < |line| && line[i] == '\\' && line[i + 1] == E.Letter(c) else line[i] == c
    ensures |E.EscapeChar(c)| == if E.Special(c) then 2 else 1
  {
    var e := E.EscapeChar(c);
    assert line[i + 0] == e[0];
    if |e| == 2 {
      assert line[i + 1] == e[1];
    }
  }

  /** One character of an escaped text, with what is left of it. */
  lemma ReadsEscaped(line: string, i: nat, a: string)
    requires a != "" && Reads(line, i, E.Escape(a) + "\"")
    ensures var w := |E.EscapeChar(a[0])|;
            Reads(line, i + w, E.Escape(a[1..]) + "\"") && |E.Escape(a)| == w + |E.Escape(a[1..])|
    ensures i < |line|
    ensures if E.Special(a[0]) then i + 1 < |line| && line[i] == '\\' && line[i + 1] == E.Letter(a[0]) else line[i] == a[0]
    ensures |E.EscapeChar(a[0])| == if E.Special(a[0]) then 2 else 1
  {
    hide *;
    var c, t := a[0], a[1..];
    assert a == [c] + t;
    E.EscapeCons(c, t);
    var e, w := E.EscapeChar(c), E.Escape(t) + "\"";
    assert E.Escape(a) + "\"" == e + w;
    ReadsConcat(line, i, e, w);
    ReadsChar(line, i, c);
    assert i < |line| by {
      ReadsBound(line, i, E.Escape(a) + "\"");
    }
  }

  lemma ReadsBound(line: string, i: nat, w: string)
    requires Reads(line, i, w)
    ensures i + |w| <= |line|
  {
  }

  lemma ReadsNothing(line: string, i: nat)
    requires Reads(line, i, E.Escape("") + "\"")
    ensures i < |line| && line[i] == '\"' && E.Escape("") == ""
  {
    var w := E.Escape("") + "\"";
    assert w == ['\"'];
    assert line[i + 0] == w[0];
  }

  /** Reading a quoted argument in the filling pass, from behind its opening quote. */
  lemma {:induction false} FillQuoted(line: string, i: nat, a: string, e: nat)
    requires Reads(line, i, E.Escape(a) + "\"")
    requires i + |E.Escape(a)| + 1 <= e <= |line|
    ensures var j := i + |E.Escape(a)| + 1;
            ArgEnd(Filling, line, i, true) == ArgEnd(Filling, line, j, false) &&
            Text(line, i, e) == a + Text(line, j, e)
    decreases |a|
  {
    hide *;
    if a == "" {
      ReadsNothing(line, i);
      ClosingQuote(Filling, line, i, e);
    } else {
      ReadsEscaped(line, i, a);
      var w := |E.EscapeChar(a[0])|;
      FillQuoted(line, i + w, a[1..], e);
      FillQuotedStep(line, i, a[0], e);
      var rest := Text(line, i + |E.Escape(a)| + 1, e);
      assert [a[0]] + (a[1..] + rest) == a + rest;
    }
  }

  lemma ClosingQuote(p: Pass, line: string, i: nat, e: nat)
    requires i < e <= |line| && line[i] == '\"'
    ensures ArgEnd(p, line, i, true) == ArgEnd(p, line, i + 1, false)
    ensures ArgEnd(p, line, i, false) == ArgEnd(p, line, i + 1, true)
    ensures Text(line, i, e) == Text(line, i + 1, e)
  {
  }

  lemma FillQuotedStep(line: string, i: nat, c: char, e: nat)
    requires var w := |E.EscapeChar(c)|; i + w <= e <= |line|
    requires E.Special(c) ==> line[i] == '\\' && line[i + 1] == E.Letter(c)
    requires !E.Special(c) ==> line[i] == c
    ensures var w := |E.EscapeChar(c)|;
            ArgEnd(Filling, line, i, true) == ArgEnd(Filling, line, i + w, true) &&
            Text(line, i, e) == [c] + Text(line, i + w, e)
  {
    assert Step(Filling, line, i) == |E.EscapeChar(c)|;
    assert CharAt(line, i) == c;
  }

  /** Reading it in the counting pass, in either mode: an escaped backslash at the end hides the closing quote. */
  lemma {:induction false} CountQuoted(line: string, i: nat, a: string, quoted: bool)
    requires Reads(line, i, E.Escape(a) + "\"")
    requires quoted || ' ' !in a
    ensures var j := i + |E.Escape(a)| + 1;
            j <= |line| &&
            ArgEnd(Counting, line, i, quoted) == ArgEnd(Counting, line, j, if EndsInBackslash(a) then quoted else !quoted)
    decreases |a|
  {
    hide E.Escape, E.EscapeChar, ArgEnd, Reads;
    if a == "" {
      ReadsNothing(line, i);
      ClosingQuote(Counting, line, i, |line|);
    } else {
      ReadsEscaped(line, i, a);
      var t, w := a[1..], |E.EscapeChar(a[0])|;
      if t == "" {
        ReadsNothing(line, i + w);
      } else {
        ReadsEscaped(line, i + w, t);
        assert t[|t| - 1] == a[|a| - 1];
      }
      if a == "\\" {
        HiddenQuote(line, i, quoted);
      } else {
        CountQuoted(line, i + w, t, quoted);
        if a[0] == '\\' {
          NotAQuote(line, i + w, t);
        }
        CountQuotedStep(line, i, a[0], quoted);
      }
    }
  }

  lemma NotAQuote(line: string, i: nat, t: string)
    requires t != "" && Reads(line, i, E.Escape(t) + "\"")
    ensures i < |line| && line[i] != '\"'
  {
    hide E.Escape, Reads;
    ReadsEscaped(line, i, t);
  }

  lemma HiddenQuote(line: string, i: nat, quoted: bool)
    requires i + 2 < |line| && line[i] == '\\' && line[i + 1] == '\\' && line[i + 2] == '\"'
    ensures ArgEnd(Counting, line, i, quoted) == ArgEnd(Counting, line, i + 3, quoted)
  {
    assert Step(Counting, line, i) == 1 && Step(Counting, line, i + 1) == 2;
  }

  lemma CountQuotedStep(line: string, i: nat, c: char, quoted: bool)
    requires var w := |E.EscapeChar(c)|; i + w < |line|
    requires E.Special(c) ==> line[i] == '\\' && line[i + 1] == E.Letter(c)
    requires !E.Special(c) ==> line[i] == c && (quoted || c != ' ')
    requires c == '\\' ==> line[i + 2] != '\"'
    ensures var w := |E.EscapeChar(c)|;
            ArgEnd(Counting, line, i, quoted) == ArgEnd(Counting, line, i + w, quoted)
  {
    if E.Special(c) && c != '\"' {
      assert Step(Counting, line, i) == 1 && Step(Counting, line, i + 1) == 1;
    }
  }

  lemma ReadsFirst(line: string, i: nat, w: string)
    requires w != "" && Reads(line, i, w)
    ensures i + |w| <= |line| && line[i] == w[0]
  {
    assert line[i + 0] == w[0];
  }

  lemma QuotedLineParts(args: seq<string>)
    requires args != []
    ensures QuotedLine(args) == Quoted(args[0]) + Tail(args)
    ensures Quoted(args[0]) == "\"" + (E.Escape(args[0]) + "\"")
    ensures Tail(args) == if |args| == 1 then "" else " " + QuotedLine(args[1..])
    ensures QuotedLine(args) != "" && QuotedLine(args)[0] == '\"'
  {
    hide E.Escape;
  }

  lemma NextArgument(line: string, i: nat, args: seq<string>)
    requires args != [] && i + |QuotedLine(args)| == |line| && Reads(line, i, QuotedLine(args))
    ensures i < |line| && line[i] == '\"' && Reads(line, i + 1, E.Escape(args[0]) + "\"")
    ensures var e := i + |E.Escape(args[0])| + 2;
            e <= |line| && (|args| == 1 <==> e == |line|) &&
            (|args| > 1 ==> line[e] == ' ' && args[1..] != [] && e + 1 < |line| && line[e + 1] == '\"' &&
                            e + 1 + |QuotedLine(args[1..])| == |line| && Reads(line, e + 1, QuotedLine(args[1..])))
  {
    hide *;
    var q := E.Escape(args[0]) + "\"";
    QuotedLineParts(args);
    ReadsConcat(line, i, Quoted(args[0]), Tail(args));
    ReadsConcat(line, i, "\"", q);
    ReadsFirst(line, i, "\"");
    if |args| > 1 {
      var e := i + 1 + |q|;
      QuotedLineParts(args[1..]);
      ReadsConcat(line, e, " ", QuotedLine(args[1..]));
      ReadsFirst(line, e, " ");
      ReadsFirst(line, e + 1, QuotedLine(args[1..]));
    }
  }

  /** `i` is the start `b` of the next argument or the blank before it. */
  predicate Before(line: string, i: nat, b: nat) {
    b < |line| && line[b] == '\"' && (i == b || (i + 1 == b && line[i] == ' '))
  }

  lemma BlanksBeforeQuote(line: string, i: nat, b: nat)
    requires Before(line, i, b)
    ensures i <= b < |line| && SkipBlanks(line, i) == b
  {
  }

  lemma BlankThenQuote(line: string, e: nat)
    requires e + 1 < |line| && line[e] == ' ' && line[e + 1] == '\"'
    ensures Before(line, e, e + 1)
  {
  }

  lemma TextsCons(line: string, all: seq<(nat, nat)>, rest: seq<(nat, nat)>)
    requires all != [] && rest == all[1..] && forall k | 0 <= k < |all| :: all[k].0 <= all[k].1 <= |line|
    ensures Texts(line, all) == [Text(line, all[0].0, all[0].1)] + Texts(line, rest)
  {
    hide Text;
  }

  lemma {:induction false} FillFindsAll(line: string, i: nat, b: nat, args: seq<string>)
    requires args != [] && b + |QuotedLine(args)| == |line| && Reads(line, b, QuotedLine(args))
    requires Before(line, i, b)
    ensures Texts(line, Spans(Filling, line, i)) == args
    decreases |args|
  {
    hide *;
    var a, rest := args[0], args[1..];
    NextArgument(line, b, args);
    BlanksBeforeQuote(line, i, b);
    SpansUnfold(Filling, line, i);
    var e := b + |E.Escape(a)| + 2;
    ClosingQuote(Filling, line, b, e);
    FillQuoted(line, b + 1, a, e);
    ScanStops(line, e);
    assert Text(line, b, e) == a + "" == a;
    assert ArgEnd(Filling, line, b, false) == e;
    assert args == [a] + rest;
    if |args| == 1 {
      SpansUnfold(Filling, line, e);
    } else {
      BlankThenQuote(line, e);
      FillFindsAll(line, e, e + 1, rest);
    }
    var spans := Spans(Filling, line, e);
    assert Spans(Filling, line, i) == [(b, e)] + spans;
    TextsCons(line, Spans(Filling, line, i), spans);
  }

  /** Splitting a quoted line copies exactly the arguments that were quoted, whatever they contain. */
  lemma QuotingRoundTrip(args: seq<string>)
    ensures Arguments(QuotedLine(args)) == args
  {
    if args != [] {
      QuotedLineParts(args);
      FillFindsAll(QuotedLine(args), 0, 0, args);
    }
  }

  lemma {:induction false} CountFindsAll(line: string, i: nat, b: nat, args: seq<string>)
    requires args != [] && b + |QuotedLine(args)| == |line| && Reads(line, b, QuotedLine(args))
    requires Before(line, i, b)
    requires forall a <- args :: !EndsInBackslash(a)
    ensures |Spans(Counting, line, i)| == |args|
    decreases |args|
  {
    hide *;
    var a := args[0];
    NextArgument(line, b, args);
    BlanksBeforeQuote(line, i, b);
    SpansUnfold(Counting, line, i);
    var e := b + |E.Escape(a)| + 2;
    ClosingQuote(Counting, line, b, e);
    CountQuoted(line, b + 1, a, true);
    CountStops(line, e);
    if |args| == 1 {
      SpansUnfold(Counting, line, e);
    } else {
      BlankThenQuote(line, e);
      CountFindsAll(line, e, e + 1, args[1..]);
    }
  }

  lemma CountStops(line: string, i: nat)
    ensures i == |line| ==> ArgEnd(Counting, line, i, false) == i && ArgEnd(Counting, line, i, true) == i + 1
    ensures i < |line| && line[i] == ' ' ==>
              ArgEnd(Counting, line, i, false) == i && ArgEnd(Counting, line, i, true) == ArgEnd(Counting, line, i + 1, true)
  {
  }

  /** Arguments none of which ends in a backslash survive the whole of `strsplit`. */
  lemma QuotingFits(args: seq<string>)
    requires forall a <- args :: !EndsInBackslash(a)
    ensures CountedArguments(QuotedLine(args)) == |args| == |Arguments(QuotedLine(args))|
  {
    QuotingRoundTrip(args);
    if args != [] {
      QuotedLineParts(args);
      CountFindsAll(QuotedLine(args), 0, 0, args);
    }
  }

  // ----- what the counting pass makes of a quoted line -----

  /**
   * An argument that ends in a backslash hides its closing quote from the counting pass, which from then on takes the
   * arguments for unquoted text and the blanks between them for quoted text, until the next such argument.
   */
  predicate Inverted(a: string, inverted: bool) {
    inverted != EndsInBackslash(a)
  }

  /** Maximal stretches of blanks. */
  function BlankRuns(a: string): nat {
    if a == "" then 0 else (if a[0] == ' ' && (|a| == 1 || a[1] != ' ') then 1 else 0) + BlankRuns(a[1..])
  }

  /** Where the pass is inverted in front of an argument, every stretch of blanks in it makes one argument more. */
  function Gained(args: seq<string>, inverted: bool): nat {
    if args == [] then 0
    else (if inverted then BlankRuns(args[0]) else 0) + Gained(args[1..], Inverted(args[0], inverted))
  }

  /** Where it is inverted behind an argument, that argument does not end. */
  function Lost(args: seq<string>, inverted: bool): nat {
    if args == [] then 0
    else (if Inverted(args[0], inverted) then 1 else 0) + Lost(args[1..], Inverted(args[0], inverted))
  }

  /** The arguments counted from `i` on when one has begun before `i`. */
  function Open(line: string, i: nat, quoted: bool): nat
    requires i <= |line|
  {
    var e := ArgEnd(Counting, line, i, quoted);
    if e > |line| then 0 else 1 + |Spans(Counting, line, e)|
  }

  lemma OpenAlike(line: string, i: nat, q: bool, j: nat, r: bool)
    requires i <= |line| && j <= |line| && ArgEnd(Counting, line, i, q) == ArgEnd(Counting, line, j, r)
    ensures Open(line, i, q) == Open(line, j, r)
  {
  }

  /** An argument begins at the first character that is no blank. */
  lemma OpenAtStart(line: string, i: nat, b: nat)
    requires i <= b < |line| && SkipBlanks(line, i) == b
    ensures |Spans(Counting, line, i)| == Open(line, b, false)
  {
    SpansUnfold(Counting, line, i);
  }

  lemma OpenAtEnd(line: string, i: nat)
    requires i == |line|
    ensures Open(line, i, true) == 0 && Open(line, i, false) == 1
  {
    hide Spans, ArgEnd;
    CountStops(line, i);
    SpansUnfold(Counting, line, i);
  }

  lemma OpenAtBlank(line: string, i: nat)
    requires i < |line| && line[i] == ' '
    ensures Open(line, i, false) == 1 + |Spans(Counting, line, i)|
    ensures Open(line, i, true) == Open(line, i + 1, true)
  {
    hide Spans;
    CountStops(line, i);
  }

  /** A blank outside quotes ends an argument, unless more blanks follow. */
  lemma OpenPastBlank(line: string, i: nat)
    requires i + 1 < |line| && line[i] == ' '
    ensures Open(line, i, false) == Open(line, i + 1, false) + if line[i + 1] == ' ' then 0 else 1
  {
    hide Spans, ArgEnd, Open;
    OpenAtBlank(line, i);
    SpansUnfold(Counting, line, i);
    SpansUnfold(Counting, line, i + 1);
    assert SkipBlanks(line, i) == SkipBlanks(line, i + 1);
    if line[i + 1] == ' ' {
      OpenAtBlank(line, i + 1);
    } else {
      OpenAtStart(line, i, i + 1);
    }
  }

  lemma BlankRunsCons(a: string)
    requires a != ""
    ensures BlankRuns(a) == (if a[0] == ' ' && (|a| == 1 || a[1] != ' ') then 1 else 0) + BlankRuns(a[1..])
    ensures BlankRuns("") == 0
  {
  }

  /** What is behind one character of an escaped text starts with a blank only if the text goes on with one. */
  lemma NextIsBlank(line: string, i: nat, t: string)
    requires Reads(line, i, E.Escape(t) + "\"")
    ensures i < |line| && (line[i] == ' ' <==> t != "" && t[0] == ' ')
  {
    hide E.Escape, Reads;
    if t == "" {
      ReadsNothing(line, i);
    } else {
      ReadsEscaped(line, i, t);
    }
  }

  /** Reading a quoted argument as unquoted text, from behind its opening quote. */
  lemma {:induction false} CountUnquoted(line: string, i: nat, a: string)
    requires Reads(line, i, E.Escape(a) + "\"")
    ensures var j := i + |E.Escape(a)| + 1;
            j <= |line| && Open(line, i, false) == BlankRuns(a) + Open(line, j, !EndsInBackslash(a))
    decreases |a|
  {
    hide E.Escape, E.EscapeChar, ArgEnd, Spans, Open, Reads, BlankRuns;
    if ' ' !in a {
      CountQuoted(line, i, a, false);
      NoBlankRuns(a);
      OpenAlike(line, i, false, i + |E.Escape(a)| + 1, !EndsInBackslash(a));
    } else {
      ReadsEscaped(line, i, a);
      BlankRunsCons(a);
      var t, w := a[1..], |E.EscapeChar(a[0])|;
      assert t != "" ==> t[|t| - 1] == a[|a| - 1];
      CountUnquoted(line, i + w, t);
      NextIsBlank(line, i + w, t);
      if a[0] == ' ' {
        OpenPastBlank(line, i);
      } else {
        assert t != "";
        NotAQuote(line, i + w, t);
        CountQuotedStep(line, i, a[0], false);
        OpenAlike(line, i, false, i + w, false);
      }
    }
  }

  lemma {:induction false} NoBlankRuns(a: string)
    requires ' ' !in a
    ensures BlankRuns(a) == 0
  {
    if a != "" {
      assert a[0] in a;
      NoBlankRuns(a[1..]);
    }
  }

  lemma LawsCons(args: seq<string>, inverted: bool)
    requires args != []
    ensures var out := Inverted(args[0], inverted);
            && Gained(args, inverted) == (if inverted then BlankRuns(args[0]) else 0) + Gained(args[1..], out)
            && Lost(args, inverted) == (if out then 1 else 0) + Lost(args[1..], out)
    ensures forall b :: Gained([], b) == 0 && Lost([], b) == 0
  {
  }

  /** Behind an argument: the pass is at the end, at the blank before the next one, or inverted. */
  lemma {:induction false} CountBehind(line: string, e: nat, args: seq<string>, inverted: bool)
    requires e <= |line| && (args == [] <==> e == |line|)
    requires args != [] ==>
               line[e] == ' ' && e + 1 < |line| && line[e + 1] == '\"' &&
               e + 1 + |QuotedLine(args)| == |line| && Reads(line, e + 1, QuotedLine(args))
    ensures Open(line, e, inverted) == (if inverted then 0 else 1) + |args| + Gained(args, inverted) - Lost(args, inverted)
    decreases |args|, 1
  {
    hide *;
    if args == [] {
      OpenAtEnd(line, e);
      NoArguments();
    } else {
      OpenAtBlank(line, e);
      BlankThenQuote(line, e);
      CountRest(line, e, e + 1, args, inverted);
    }
  }

  lemma NoArguments()
    ensures forall b :: Gained([], b) == 0 && Lost([], b) == 0
  {
  }

  lemma InvertedIs(a: string, inverted: bool)
    ensures Inverted(a, inverted) == (inverted != EndsInBackslash(a))
  {
  }

  /** What the counting pass counts from the opening quote at `b` on. */
  lemma {:induction false} CountRest(line: string, i: nat, b: nat, args: seq<string>, inverted: bool)
    requires args != [] && b + |QuotedLine(args)| == |line| && Reads(line, b, QuotedLine(args))
    requires Before(line, i, b)
    ensures inverted ==> Open(line, b, true) == |args| + Gained(args, true) - Lost(args, true)
    ensures !inverted ==> |Spans(Counting, line, i)| == |args| + Gained(args, false) - Lost(args, false)
    decreases |args|, 0
  {
    hide *;
    var a := args[0];
    NextArgument(line, b, args);
    BlanksBeforeQuote(line, i, b);
    LawsCons(args, inverted);
    InvertedIs(a, inverted);
    var e := b + |E.Escape(a)| + 2;
    ClosingQuote(Counting, line, b, |line|);
    OpenAlike(line, b, inverted, b + 1, !inverted);
    if inverted {
      CountUnquoted(line, b + 1, a);
    } else {
      OpenAtStart(line, i, b);
      CountQuoted(line, b + 1, a, true);
      OpenAlike(line, b + 1, true, e, EndsInBackslash(a));
    }
    CountBehind(line, e, args[1..], Inverted(a, inverted));
  }

  /** The number of arguments that `strsplit` counts in a quoted line, whatever the arguments contain. */
  lemma CountedExactly(args: seq<string>)
    ensures CountedArguments(QuotedLine(args)) == |args| + Gained(args, false) - Lost(args, false)
  {
    hide *;
    if args == [] {
      NoArguments();
      NothingCounted();
    } else {
      QuotedLineParts(args);
      var line := QuotedLine(args);
      WholeLine(line);
      CountRest(line, 0, 0, args, false);
    }
  }

  lemma NothingCounted()
    ensures CountedArguments(QuotedLine([])) == 0
  {
  }

  lemma WholeLine(line: string)
    requires line != "" && line[0] == '\"'
    ensures Reads(line, 0, line) && Before(line, 0, 0) && CountedArguments(line) == |Spans(Counting, line, 0)|
  {
  }

  /** `strsplit` overruns `argv` exactly when the stretches of blanks do not make up for the arguments that are lost. */
  lemma OverrunIffMoreLostThanGained(args: seq<string>)
    ensures CountedArguments(QuotedLine(args)) < |Arguments(QuotedLine(args))| <==> Gained(args, false) < Lost(args, false)
  {
    QuotingRoundTrip(args);
    CountedExactly(args);
  }

  lemma {:induction false} NothingGained(args: seq<string>, inverted: bool)
    requires forall a <- args :: ' ' !in a
    ensures Gained(args, inverted) == 0
  {
    if args != [] {
      assert args[0] in args;
      NoBlankRuns(args[0]);
      NothingGained(args[1..], Inverted(args[0], inverted));
    }
  }

  lemma {:induction false} LostIffTrailingBackslash(args: seq<string>)
    ensures Lost(args, false) > 0 <==> exists a <- args :: EndsInBackslash(a)
  {
    hide EndsInBackslash;
    if args != [] {
      assert args == [args[0]] + args[1..];
      if !EndsInBackslash(args[0]) {
        LostIffTrailingBackslash(args[1..]);
      }
    }
  }

  /** For arguments without blanks, `strsplit` overruns `argv` exactly when some argument ends in a backslash. */
  lemma OverrunIffTrailingBackslash(args: seq<string>)
    requires forall a <- args :: ' ' !in a
    ensures CountedArguments(QuotedLine(args)) < |Arguments(QuotedLine(args))| <==> exists a <- args :: EndsInBackslash(a)
  {
    OverrunIffMoreLostThanGained(args);
    NothingGained(args, false);
    LostIffTrailingBackslash(args);
  }

  lemma TwoLaws(a: string, b: string)
    requires EndsInBackslash(a)
    ensures var out := if EndsInBackslash(b) then 0 else 1;
            Gained([a, b], false) == BlankRuns(b) && Lost([a, b], false) == 1 + out
  {
    hide BlankRuns, EndsInBackslash, Gained, Lost;
    LawsCons([a, b], false);
    assert [a, b][1..] == [b];
    LawsCons([b], true);
    assert [b][1..] == [];
  }

  lemma SomeBlankRuns()
    ensures BlankRuns(" a ") == 2 && BlankRuns("b c d\\") == 2
  {
    assert " a "[1..] == "a " && "a "[1..] == " " && " "[1..] == "";
    assert "b c d\\"[1..] == " c d\\" && " c d\\"[1..] == "c d\\" && "c d\\"[1..] == " d\\";
    assert " d\\"[1..] == "d\\" && "d\\"[1..] == "\\" && "\\"[1..] == "";
  }

  /** With blanks a trailing backslash may go unnoticed, or more arguments be counted than there are. */
  lemma BlanksMakeUp()
    ensures CountedArguments(QuotedLine(["\\", " a "])) == 2
    ensures CountedArguments(QuotedLine(["a\\", "b c d\\"])) == 3
  {
    hide CountedArguments, QuotedLine, Gained, Lost, BlankRuns;
    SomeBlankRuns();
    TwoLaws("\\", " a ");
    TwoLaws("a\\", "b c d\\");
    CountedExactly(["\\", " a "]);
    CountedExactly(["a\\", "b c d\\"]);
  }
}

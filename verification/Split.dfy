/**
 * `strsplit`: cutting a command line into arguments.
 *
 * The program scans the line twice, first to count the arguments and size `argv`, then to measure and copy them.
 * Both scans toggle a quoted mode at every unescaped quote and end an argument at a blank outside quotes, but
 * the counting scan knows a single escape sequence (backslash, quote) where the filling scan knows five.
 */
module Split {
  import opened CStrings
  import E = Escape

  datatype Pass = Counting | Filling

  /** Characters a pass steps over at once at position `i`. */
  function Step(p: Pass, line: string, i: nat): (w: nat)
    requires i < |line|
    ensures 1 <= w <= 2 && i + w <= |line|
  {
    if line[i] == '\\' && i + 1 < |line| && (if p == Counting then line[i + 1] == '\"' else E.IsLetter(line[i + 1])) then 2
    else 1
  }

  function SkipBlanks(line: string, i: nat): (b: nat)
    requires i <= |line|
    ensures i <= b <= |line|
    ensures b < |line| ==> line[b] != ' '
    ensures forall k | i <= k < b :: line[k] == ' '
    decreases |line| - i
  {
    if i < |line| && line[i] == ' ' then SkipBlanks(line, i + 1) else i
  }

  /** Where the argument scanned from `i` ends; one past the line if a quote stays open. */
  function ArgEnd(p: Pass, line: string, i: nat, quoted: bool): (e: nat)
    requires i <= |line|
    ensures i <= e <= |line| + 1
    decreases |line| - i
  {
    if i == |line| then (if quoted then i + 1 else i)
    else if line[i] == '\"' then ArgEnd(p, line, i + 1, !quoted)
    else if line[i] == ' ' && !quoted then i
    else ArgEnd(p, line, i + Step(p, line, i), quoted)
  }

  /** The start and end of every argument a pass finds from `i` on; an argument with an open quote is dropped. */
  function Spans(p: Pass, line: string, i: nat): (r: seq<(nat, nat)>)
    requires i <= |line|
    ensures forall k | 0 <= k < |r| :: i <= r[k].0 <= r[k].1 <= |line|
    decreases |line| - i
  {
    var b := SkipBlanks(line, i);
    if b == |line| then []
    else
      var e := ArgEnd(p, line, b, false);
      if e > |line| then []
      else ArgEndGrows(p, line, b, false); [(b, e)] + Spans(p, line, e)
  }

  lemma ArgEndGrows(p: Pass, line: string, i: nat, quoted: bool)
    requires i < |line| && line[i] != ' '
    ensures ArgEnd(p, line, i, quoted) > i
  {
  }

  function CharAt(line: string, i: nat): char
    requires i < |line|
  {
    if Step(Filling, line, i) == 2 then E.Unletter(line[i + 1]) else line[i]
  }

  /** The text of `line[b..e]` with quotes dropped and escape sequences replaced. */
  function Text(line: string, b: nat, e: nat): (t: string)
    requires b <= e <= |line|
    ensures |t| <= e - b
    decreases e - b
  {
    if b == e then ""
    else if line[b] == '\"' then Text(line, b + 1, e)
    else
      var w := Step(Filling, line, b);
      if b + w > e then [line[b]] else [CharAt(line, b)] + Text(line, b + w, e)
  }

  /** The arguments as the filling pass copies them. */
  function Texts(line: string, spans: seq<(nat, nat)>): (r: seq<string>)
    requires forall k | 0 <= k < |spans| :: spans[k].0 <= spans[k].1 <= |line|
    ensures |r| == |spans|
    ensures forall k | 0 <= k < |r| :: r[k] == Text(line, spans[k].0, spans[k].1)
  {
    seq(|spans|, k requires 0 <= k < |spans| => Text(line, spans[k].0, spans[k].1))
  }

  function Arguments(line: string): seq<string> {
    Texts(line, Spans(Filling, line, 0))
  }

  function CountedArguments(line: string): nat {
    |Spans(Counting, line, 0)|
  }

  /** The line as a C string: position `len` holds the terminator. */
  function At(line: string, i: nat): char
    requires i <= |line|
  {
    if i < |line| then line[i] else NUL
  }

  /** The scan of one argument in the counting pass. */
  method ScanCounting(line: string, b: nat) returns (i: nat)
    requires b <= |line|
    ensures i == ArgEnd(Counting, line, b, false)
  {
    var len := |line|;
    i := b;
    while i < len
      invariant b <= i <= len
      invariant ArgEnd(Counting, line, b, false) == ArgEnd(Counting, line, i, false)
      decreases len - i
    {
      if line[i] == '\"' {
        i := i + 1;
        while i < len && line[i] != '\"'
          invariant b <= i <= len
          invariant ArgEnd(Counting, line, b, false) == ArgEnd(Counting, line, i, true)
        {
          if line[i] == '\\' && i + 1 < len && line[i + 1] == '\"' {
            i := i + 1;
          }
          i := i + 1;
        }
        i := i + 1;
        if i >= len {
          break;
        }
      } else {
        while i < len
          invariant b <= i <= len
          invariant ArgEnd(Counting, line, b, false) == ArgEnd(Counting, line, i, false)
        {
          if line[i] == ' ' || line[i] == '\"' {
            break;
          }
          if line[i] == '\\' && i + 1 < len && line[i + 1] == '\"' {
            i := i + 1;
          }
          i := i + 1;
        }
      }
      if At(line, i) == ' ' {
        break;
      }
    }
  }

  lemma MeasureStep(line: string, i: nat, e: nat, quoted: bool)
    requires i < |line| && line[i] != '\"' && (quoted || line[i] != ' ')
    requires e == ArgEnd(Filling, line, i, quoted)
    ensures var w := Step(Filling, line, i);
            i + w <= e && ArgEnd(Filling, line, i + w, quoted) == e &&
            (e <= |line| ==> |Text(line, i, e)| == 1 + |Text(line, i + w, e)|)
  {
  }

  lemma ScanStops(line: string, i: nat)
    ensures i <= |line| ==> Text(line, i, i) == ""
    ensures i == |line| ==> ArgEnd(Filling, line, i, false) == i && ArgEnd(Filling, line, i, true) == i + 1
    ensures i < |line| && line[i] == ' ' ==> ArgEnd(Filling, line, i, false) == i
  {
  }

  /** The scan of one argument in the filling pass, which also measures it. */
  method ScanFilling(line: string, b: nat) returns (i: nat, argLen: nat)
    requires b <= |line|
    ensures i == ArgEnd(Filling, line, b, false)
    ensures i <= |line| ==> argLen == |Text(line, b, i)|
  {
    hide Text, ArgEnd;
    var len := |line|;
    ghost var e := ArgEnd(Filling, line, b, false);
    i, argLen := b, 0;
    while i < len
      invariant b <= i <= len
      invariant e == ArgEnd(Filling, line, i, false)
      invariant e <= len ==> argLen + |Text(line, i, e)| == |Text(line, b, e)|
      decreases len - i
    {
      if line[i] == '\"' {
        TextQuote(line, i, e, false);
        i := i + 1;
        while i < len && line[i] != '\"'
          invariant b <= i <= len
          invariant e == ArgEnd(Filling, line, i, true)
          invariant e <= len ==> argLen + |Text(line, i, e)| == |Text(line, b, e)|
        {
          MeasureStep(line, i, e, true);
          if line[i] == '\\' && i + 1 < len && E.IsLetter(line[i + 1]) {
            i := i + 1;
          }
          argLen, i := argLen + 1, i + 1;
        }
        if i < len {
          TextQuote(line, i, e, true);
        } else {
          ScanStops(line, i);
        }
        i := i + 1;
        if i >= len {
          break;
        }
      } else {
        while i < len
          invariant b <= i <= len
          invariant e == ArgEnd(Filling, line, i, false)
          invariant e <= len ==> argLen + |Text(line, i, e)| == |Text(line, b, e)|
        {
          if line[i] == ' ' || line[i] == '\"' {
            break;
          }
          MeasureStep(line, i, e, false);
          if line[i] == '\\' && i + 1 < len && E.IsLetter(line[i + 1]) {
            i := i + 1;
          }
          argLen, i := argLen + 1, i + 1;
        }
      }
      if At(line, i) == ' ' {
        break;
      }
    }
    ScanStops(line, i);
  }

  lemma TextEmpty(line: string, e: nat)
    requires e <= |line|
    ensures Text(line, e, e) == ""
  {
  }

  lemma TextQuote(line: string, i: nat, e: nat, quoted: bool)
    requires i < |line| && line[i] == '\"' && e == ArgEnd(Filling, line, i, quoted)
    ensures i + 1 <= e && e == ArgEnd(Filling, line, i + 1, !quoted)
    ensures e <= |line| ==> Text(line, i, e) == Text(line, i + 1, e)
  {
  }

  /** An argument never ends inside an escape sequence. */
  predicate Closed(line: string, b: nat, e: nat)
    requires b <= e <= |line|
    decreases e - b
  {
    b == e || (b + Step(Filling, line, b) <= e && Closed(line, b + Step(Filling, line, b), e))
  }

  lemma {:induction false} ArgEndClosed(line: string, b: nat, quoted: bool)
    requires b <= |line| && ArgEnd(Filling, line, b, quoted) <= |line|
    ensures Closed(line, b, ArgEnd(Filling, line, b, quoted))
    decreases |line| - b
  {
    if b < |line| {
      if line[b] == '\"' {
        ArgEndClosed(line, b + 1, !quoted);
      } else if line[b] != ' ' || quoted {
        ArgEndClosed(line, b + Step(Filling, line, b), quoted);
      }
    }
  }

  lemma CopyStep(line: string, i: nat, e: nat)
    requires i < e <= |line| && Closed(line, i, e)
    ensures var w := Step(Filling, line, i);
            i + w <= e && Closed(line, i + w, e) &&
            Text(line, i, e) == (if line[i] == '\"' then "" else [CharAt(line, i)]) + Text(line, i + w, e)
  {
  }

  ghost predicate Holds(a: array?<char>, text: string)
    reads a
  {
    a != null && a[..] == text + [NUL]
  }

  /** One round of the copy loop: a quote is dropped, a character or escape sequence gives one character. */
  method CopyNext(line: string, i: nat, e: nat, a: array<char>, j: nat, ghost out: string) returns (next: nat, k: nat)
    requires i < e <= |line| && j == |out| <= a.Length && a[..j] == out
    requires i + Step(Filling, line, i) <= e && (line[i] != '\"' ==> j < a.Length)
    modifies a
    ensures next == i + Step(Filling, line, i)
    ensures var more := out + if line[i] == '\"' then "" else [CharAt(line, i)]; k == |more| <= a.Length && a[..k] == more
  {
    if line[i] == '\"' {
      return i + 1, j;
    }
    next := i;
    if line[next] == '\\' {
      next := next + 1;
      if E.IsLetter(At(line, next)) {
        a[j] := E.Unletter(line[next]);
      } else {
        next := next - 1;
        a[j] := line[next];
      }
    } else {
      a[j] := line[next];
    }
    next, k := next + 1, j + 1;
  }

  /** The copy loop: it writes exactly `argLen` characters and the terminator. */
  method CopyArg(line: string, b: nat, e: nat, argLen: nat) returns (a: array<char>)
    requires b <= e <= |line| && Closed(line, b, e) && argLen == |Text(line, b, e)|
    ensures fresh(a) && Holds(a, Text(line, b, e))
  {
    hide *;
    a := new char[argLen + 1];
    var start, j := b, 0;
    ghost var out, rest := "", Text(line, b, e);
    while start < e
      invariant b <= start <= e && Closed(line, start, e)
      invariant rest == Text(line, start, e) && Text(line, b, e) == out + rest
      invariant j == |out| && a.Length == argLen + 1 && a[..j] == out
    {
      CopyStep(line, start, e);
      ghost var c := if line[start] == '\"' then "" else [CharAt(line, start)];
      start, j := CopyNext(line, start, e, a, j, out);
      assert out + rest == (out + c) + Text(line, start, e);
      out, rest := out + c, Text(line, start, e);
    }
    TextEmpty(line, e);
    assert out + "" == out;
    a[j] := NUL;
    assert a[..j] == out;
    Copied(a, j, out);
  }

  lemma Copied(a: array<char>, j: nat, text: string)
    requires j == |text| && a.Length == j + 1 && a[..j] == text && a[j] == NUL
    ensures Holds(a, text)
  {
  }

  lemma SpansUnfold(p: Pass, line: string, i: nat)
    requires i <= |line|
    ensures var b := SkipBlanks(line, i);
            Spans(p, line, i) ==
            if b == |line| || ArgEnd(p, line, b, false) > |line| then []
            else [(b, ArgEnd(p, line, b, false))] + Spans(p, line, ArgEnd(p, line, b, false))
    ensures var b := SkipBlanks(line, i); b < |line| ==> ArgEnd(p, line, b, false) > b
    ensures i == |line| ==> Spans(p, line, i) == []
  {
    if SkipBlanks(line, i) < |line| {
      ArgEndGrows(p, line, SkipBlanks(line, i), false);
    }
  }

  method SkipBlanksLoop(line: string, start: nat) returns (i: nat)
    requires start < |line|
    ensures i == SkipBlanks(line, start)
  {
    i := start;
    if line[i] == ' ' {
      i := i + 1;
      while i < |line| && line[i] == ' '
        invariant start <= i <= |line| && SkipBlanks(line, start) == SkipBlanks(line, i)
      {
        i := i + 1;
      }
    }
  }

  /** The counting pass. */
  method CountArgs(line: string) returns (argc: nat)
    ensures argc == CountedArguments(line)
  {
    hide Spans, ArgEnd, SkipBlanks;
    var i := 0;
    argc := 0;
    ghost var todo := Spans(Counting, line, 0);
    while i < |line|
      invariant i <= |line| ==> todo == Spans(Counting, line, i)
      invariant argc + |todo| == CountedArguments(line)
      invariant i > |line| ==> todo == []
      decreases |line| - i
    {
      SpansUnfold(Counting, line, i);
      i := SkipBlanksLoop(line, i);
      if i == |line| {
        break;
      }
      i := ScanCounting(line, i);
      if i > |line| {
        todo := [];
        break;
      }
      argc, todo := argc + 1, todo[1..];
    }
    if i == |line| {
      SpansUnfold(Counting, line, i);
    }
  }

  lemma ArgumentsAt(line: string)
    ensures var spans := Spans(Filling, line, 0);
            |Arguments(line)| == |spans| && CountedArguments(line) == |Spans(Counting, line, 0)| &&
            forall k | 0 <= k < |spans| :: Arguments(line)[k] == Text(line, spans[k].0, spans[k].1)
  {
  }

  /** The first `argc` entries hold the first texts. */
  ghost predicate Filled(argv: array<array?<char>>, argc: nat, texts: seq<string>)
    reads *
  {
    argc <= argv.Length && argc <= |texts| &&
    forall k | 0 <= k < argc :: argv[k] != null && argv[k] as object != argv && Holds(argv[k], texts[k])
  }

  lemma FilledMeans(argv: array<array?<char>>, argc: nat, texts: seq<string>)
    requires Filled(argv, argc, texts) && argc == |texts|
    ensures argc <= argv.Length && forall k | 0 <= k < argc :: Holds(argv[k], texts[k])
  {
  }

  lemma NothingFilled(argv: array<array?<char>>, texts: seq<string>)
    ensures Filled(argv, 0, texts)
  {
  }

  /** One more entry. */
  method PutArg(argv: array<array?<char>>, argc: nat, a: array<char>, ghost texts: seq<string>)
    requires Filled(argv, argc, texts) && argc < argv.Length && argc < |texts| && a as object != argv && Holds(a, texts[argc])
    modifies argv
    ensures Filled(argv, argc + 1, texts) && argv[argc] == a && forall k | 0 <= k < argc :: argv[k] == old(argv[k])
  {
    argv[argc] := a;
  }

  /**
   * `strsplit`. `overrun` reports that the filling pass found an argument for which the counting pass had left no
   * room in `argv`; the program would then write past the end of the array.
   */
  method StrSplit(line: string) returns (overrun: bool, argc: nat, argv: array<array?<char>>)
    ensures fresh(argv) && argv.Length == CountedArguments(line)
    ensures overrun <==> CountedArguments(line) < |Arguments(line)|
    ensures !overrun ==> argc == |Arguments(line)|
    ensures !overrun ==> forall k | 0 <= k < argc :: fresh(argv[k]) && Holds(argv[k], Arguments(line)[k])
  {
    hide *;
    var room := CountArgs(line);
    argv := new array?<char>[room](_ => null);
    ghost var spans := Spans(Filling, line, 0);
    ghost var todo, texts := spans, Arguments(line);
    ArgumentsAt(line);
    NothingFilled(argv, texts);
    var i := 0;
    argc := 0;
    overrun := false;
    while i < |line|
      invariant fresh(argv) && argv.Length == room && i <= |line|
      invariant todo == Spans(Filling, line, i) && argc <= |spans| && todo == spans[argc..]
      invariant Filled(argv, argc, texts) && argc <= room
      invariant forall k | 0 <= k < argc :: fresh(argv[k])
      decreases |line| - i
    {
      SpansUnfold(Filling, line, i);
      i := SkipBlanksLoop(line, i);
      if i == |line| {
        break;
      }
      var start := i;
      var argLen;
      i, argLen := ScanFilling(line, start);
      if i > |line| {
        break;
      }
      assert todo[0] == (start, i) && spans[argc] == todo[0];
      if argc == room {
        overrun := true;
        return;
      }
      ArgEndClosed(line, start, false);
      var a := CopyArg(line, start, i, argLen);
      PutArg(argv, argc, a, texts);
      argc, todo := argc + 1, todo[1..];
    }
    if i == |line| {
      SpansUnfold(Filling, line, i);
    }
    FilledMeans(argv, argc, texts);
  }
}

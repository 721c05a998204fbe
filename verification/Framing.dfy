/** The reader of gdb's output: bytes are collected in a growing buffer until they end in one of gdb's prompts. */
module Framing {
  import opened Options

  predicate EndsIn(s: string, t: string) {
    |s| >= |t| && s[|s| - |t|..] == t
  }

  predicate EndsInPrompt(s: string) {
    EndsIn(s, "(gdb)\n") || EndsIn(s, "(gdb) \n") || EndsIn(s, "(y or n) ")
  }

  /** No beginning of the text, shorter than the text itself, ends in a prompt. */
  predicate NoPromptInside(s: string) {
    forall k | 0 <= k < |s| :: !EndsInPrompt(s[..k])
  }

  /** What is handed to the parser at once. */
  predicate Chunk(s: string) {
    EndsInPrompt(s) && NoPromptInside(s)
  }

  predicate Chunks(cs: seq<string>) {
    forall k | 0 <= k < |cs| :: Chunk(cs[k])
  }

  /** What is still collected. */
  predicate Unfinished(s: string) {
    !EndsInPrompt(s) && NoPromptInside(s)
  }

  function Concat(cs: seq<string>): string {
    if cs == [] then "" else cs[0] + Concat(cs[1..])
  }

  /** Carriage returns are ignored. */
  function Stripped(input: string): string {
    if input == "" then "" else Stripped(input[..|input| - 1]) + if input[|input| - 1] == '\r' then "" else [input[|input| - 1]]
  }

  /** The input, without carriage returns, is cut into chunks and something unfinished. */
  predicate Framed(input: string, cs: seq<string>, pending: string) {
    Concat(cs) + pending == Stripped(input) && Chunks(cs) && Unfinished(pending)
  }

  class LineReader {
    var line: array<char>
    var i: nat

    ghost predicate Valid()
      reads this
    {
      i < line.Length
    }

    ghost function Pending(): string
      requires Valid()
      reads this, line
    {
      line[..i]
    }

    constructor ()
      ensures Valid() && Pending() == "" && line.Length == 256 && fresh(line)
    {
      line := new char[256];
      i := 0;
    }

    /** One byte. A buffer that is full is doubled, so there is always room for the terminator. */
    method Receive(c: char) returns (chunk: Option<string>)
      requires Valid()
      modifies this, line
      ensures Valid() && (line == old(line) || (fresh(line) && line.Length == 2 * old(line.Length)))
      ensures if c == '\r' then chunk == None && Pending() == old(Pending())
              else
                var now := old(Pending()) + [c];
                if EndsInPrompt(now) then chunk == Some(now) && Pending() == ""
                else chunk == None && Pending() == now
    {
      if c == '\r' {
        return None;
      }
      Append(c);
      var complete := AtPrompt();
      if complete {
        line[i] := '\0';
        chunk := Some(line[..i]);
        i := 0;
      } else {
        chunk := None;
      }
    }

    /** The comparison of the last bytes with the prompts. */
    method AtPrompt() returns (r: bool)
      requires Valid()
      ensures r == EndsInPrompt(Pending())
    {
      hide EndsInPrompt;
      ghost var now := Pending();
      Suffixes(now);
      assert forall k | 0 <= k <= i :: line[k..i] == now[k..i];
      r := (i >= 6 && line[i - 6..i] == "(gdb)\n") || (i >= 7 && line[i - 7..i] == "(gdb) \n")
      || (i >= 9 && line[i - 9..i] == "(y or n) ");
    }

    /** The byte is stored, and the buffer doubled when that filled it. */
    method Append(c: char)
      requires Valid()
      modifies this, line
      ensures Valid() && (line == old(line) || (fresh(line) && line.Length == 2 * old(line.Length)))
      ensures i == old(i) + 1 && Pending() == old(Pending()) + [c]
    {
      ghost var now := Pending() + [c];
      line[i] := c;
      i := i + 1;
      assert line[..i] == now;
      if i >= line.Length {
        var larger := new char[line.Length * 2];
        forall k | 0 <= k < i {
          larger[k] := line[k];
        }
        assert larger[..i] == line[..i];
        line := larger;
      }
    }

    /** All bytes of an input, and the chunks handed to the parser on the way. */
    method ReadAll(input: string) returns (chunks: seq<string>)
      requires Valid() && Unfinished(Pending())
      modifies this, line
      ensures Valid() && Concat(chunks) + Pending() == old(Pending()) + Stripped(input)
      ensures Chunks(chunks) && Unfinished(Pending())
    {
      hide *;
      ghost var start := Pending();
      chunks := [];
      Nothing(start);
      var n := 0;
      assert input[..0] == "";
      while n < |input|
        invariant 0 <= n <= |input| && Valid() && (line == old(line) || fresh(line))
        invariant Concat(chunks) + Pending() == start + Stripped(input[..n])
        invariant Chunks(chunks) && Unfinished(Pending())
      {
        ghost var before := Pending();
        var chunk := Receive(input[n]);
        OneMoreByte(start, chunks, before, input[..n], input[n]);
        assert input[..n + 1] == input[..n] + [input[n]];
        if chunk.Some? {
          chunks := chunks + [chunk.value];
        }
        n := n + 1;
      }
      assert input[..n] == input;
    }
  }

  lemma SuffixIs(s: string, t: string)
    ensures EndsIn(s, t) <==> |s| >= |t| && s[|s| - |t|..|s|] == t
  {
    if |s| >= |t| {
      assert s[|s| - |t|..] == s[|s| - |t|..|s|];
    }
  }

  lemma Suffixes(s: string)
    ensures EndsInPrompt(s) <==>
            (|s| >= 6 && s[|s| - 6..|s|] == "(gdb)\n") || (|s| >= 7 && s[|s| - 7..|s|] == "(gdb) \n")
            || (|s| >= 9 && s[|s| - 9..|s|] == "(y or n) ")
  {
    hide EndsIn;
    SuffixIs(s, "(gdb)\n");
    SuffixIs(s, "(gdb) \n");
    SuffixIs(s, "(y or n) ");
  }

  lemma Nothing(start: string)
    ensures Concat([]) + start == start + Stripped("") && Chunks([])
  {
    assert "" + start == start + "";
  }

  lemma {:induction false} ConcatMore(cs: seq<string>, c: string)
    ensures Concat(cs + [c]) == Concat(cs) + c
  {
    if cs == [] {
      assert [c][1..] == [] && [] + [c] == [c];
      assert c + "" == c == "" + c;
    } else {
      assert (cs + [c])[1..] == cs[1..] + [c];
      ConcatMore(cs[1..], c);
    }
  }

  lemma StrippedMore(input: string, c: char)
    ensures Stripped(input + [c]) == Stripped(input) + if c == '\r' then "" else [c]
  {
    assert (input + [c])[..|input + [c]| - 1] == input;
  }

  lemma NowInside(before: string, c: char)
    requires Unfinished(before)
    ensures NoPromptInside(before + [c])
    ensures Unfinished("")
  {
    hide EndsInPrompt;
    var now := before + [c];
    forall k | 0 <= k < |now|
      ensures !EndsInPrompt(now[..k])
    {
      if k < |before| {
        assert now[..k] == before[..k];
      } else {
        assert now[..k] == before;
      }
    }
    EmptyIsUnfinished();
  }

  /** What one byte does to chunks and pending text. */
  lemma OneMoreByte(start: string, chunks: seq<string>, before: string, input: string, c: char)
    requires Concat(chunks) + before == start + Stripped(input) && Chunks(chunks) && Unfinished(before)
    ensures c == '\r' ==> Concat(chunks) + before == start + Stripped(input + [c])
    ensures c != '\r' ==>
              var now := before + [c];
              && (EndsInPrompt(now) ==> Chunks(chunks + [now]) && Unfinished("") &&
                                        Concat(chunks + [now]) + "" == start + Stripped(input + [c]))
              && (!EndsInPrompt(now) ==> Unfinished(now) && Concat(chunks) + now == start + Stripped(input + [c]))
  {
    hide EndsInPrompt, NoPromptInside, Concat, Stripped;
    StrippedMore(input, c);
    NowInside(before, c);
    ConcatMore(chunks, before + [c]);
    if c != '\r' {
      assert Concat(chunks) + (before + [c]) == (Concat(chunks) + before) + [c];
      assert start + (Stripped(input) + [c]) == (start + Stripped(input)) + [c];
    } else {
      assert Stripped(input) + "" == Stripped(input);
    }
  }

  // ----- there is only one way to cut -----

  lemma SamePrefix(a: string, b: string, s: string, t: string)
    requires a + s == b + t && |a| <= |b|
    ensures a == b[..|a|]
  {
    assert a == (a + s)[..|a|] == (b + t)[..|a|];
  }

  /** The chunks of an input are determined by the input. */
  lemma {:induction false} FramingIsUnique(cs: seq<string>, p: string, ds: seq<string>, q: string)
    requires Chunks(cs) && Unfinished(p) && Chunks(ds) && Unfinished(q)
    requires Concat(cs) + p == Concat(ds) + q
    ensures cs == ds && p == q
    decreases |cs| + |ds|
  {
    hide EndsInPrompt, NoPromptInside;
    if cs == [] && ds == [] {
      assert "" + p == p && "" + q == q;
    } else if cs == [] {
      assert "" + p == p;
      FirstChunkFits(ds, q, p);
      assert false;
    } else if ds == [] {
      assert "" + q == q;
      FirstChunkFits(cs, p, q);
      assert false;
    } else {
      var a, b := cs[0], ds[0];
      var s, t := Concat(cs[1..]) + p, Concat(ds[1..]) + q;
      assert a + s == Concat(cs) + p && b + t == Concat(ds) + q;
      SameChunk(a, b, s, t);
      assert s == (a + s)[|a|..] && t == (b + t)[|b|..];
      FramingIsUnique(cs[1..], p, ds[1..], q);
      assert cs == [a] + cs[1..] && ds == [b] + ds[1..];
    }
  }

  lemma SameChunk(a: string, b: string, s: string, t: string)
    requires Chunk(a) && Chunk(b) && a + s == b + t
    ensures a == b
  {
    hide EndsInPrompt;
    if |a| <= |b| {
      SamePrefix(a, b, s, t);
    } else {
      SamePrefix(b, a, t, s);
    }
  }

  /** Text that starts with a chunk is not unfinished. */
  lemma FirstChunkFits(cs: seq<string>, p: string, whole: string)
    requires cs != [] && Chunk(cs[0]) && Concat(cs) + p == whole
    ensures !Unfinished(whole)
  {
    hide EndsInPrompt;
    var a := cs[0];
    assert whole == a + (Concat(cs[1..]) + p);
    assert whole[..|a|] == a;
    if |a| == |whole| {
      assert whole == a;
    }
  }

  /** Messages that each end in their only prompt reach the parser one by one, whatever carriage returns lie between. */
  lemma MessagesArriveWhole(messages: seq<string>, input: string, chunks: seq<string>, pending: string)
    requires Chunks(messages) && Stripped(input) == Concat(messages) && Framed(input, chunks, pending)
    ensures chunks == messages && pending == ""
  {
    hide Concat, Stripped, Chunks, Unfinished;
    EmptyIsUnfinished();
    assert Concat(messages) + "" == Concat(messages);
    FramingIsUnique(chunks, pending, messages, "");
  }

  lemma EmptyIsUnfinished()
    ensures Unfinished("")
  {
  }
}

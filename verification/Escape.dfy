/**
 * `strescape` and the in-place `strdeescape`.
 *
 * The pure functions are the reference; the two methods are the buffer algorithms, proved to compute them
 * also when source and destination are the same buffer.
 */
module Escape {
  import opened CStrings

  /** Characters that `strescape` replaces by a backslash and a letter. */
  predicate Special(c: char) {
    c == '\t' || c == '\n' || c == '\r' || c == '\"' || c == '\\'
  }

  /** Letters that complete an escape sequence. */
  predicate IsLetter(c: char) {
    c == 't' || c == 'n' || c == 'r' || c == '\"' || c == '\\'
  }

  function Letter(c: char): char
    requires Special(c)
  {
    match c
    case '\t' => 't'
    case '\n' => 'n'
    case '\r' => 'r'
    case '\"' => '\"'
    case _ => '\\'
  }

  function Unletter(c: char): char
    requires IsLetter(c)
  {
    match c
    case 't' => '\t'
    case 'n' => '\n'
    case 'r' => '\r'
    case '\"' => '\"'
    case _ => '\\'
  }

  function EscapeChar(c: char): string {
    if Special(c) then ['\\', Letter(c)] else [c]
  }

  function Escape(s: string): (r: string)
    ensures |s| <= |r| <= 2 * |s|
    ensures NUL !in s ==> NUL !in r
  {
    if s == "" then "" else EscapeChar(s[0]) + Escape(s[1..])
  }

  /** Number of characters `strdeescape` and `strsplit` consume at the start of `s`. */
  function Width(s: string): (w: nat)
    requires s != ""
    ensures w <= |s|
  {
    if s[0] == '\\' && |s| > 1 && IsLetter(s[1]) then 2 else 1
  }

  function Head(s: string): char
    requires s != ""
  {
    if Width(s) == 2 then Unletter(s[1]) else s[0]
  }

  function Deescape(s: string): (r: string)
    ensures |r| <= |s|
    ensures NUL !in s ==> NUL !in r
  {
    if s == "" then "" else [Head(s)] + Deescape(s[Width(s)..])
  }

  /** Text in the image of `Escape`: every backslash starts an escape sequence, nothing special is left raw. */
  predicate Canonical(s: string) {
    s == "" || ((Width(s) == 2 || !Special(s[0])) && Canonical(s[Width(s)..]))
  }

  lemma {:induction false} EscapeConcat(s: string, t: string)
    ensures Escape(s + t) == Escape(s) + Escape(t)
  {
    hide Escape, EscapeChar;
    EscapeNil();
    if s == "" {
      assert s + t == t;
    } else {
      var c, rest := s[0], s[1..];
      assert s == [c] + rest && s + t == [c] + (rest + t);
      EscapeCons(c, rest);
      EscapeCons(c, rest + t);
      EscapeConcat(rest, t);
    }
  }

  lemma DeescapeEscapedChar(c: char, t: string)
    ensures Deescape(EscapeChar(c) + t) == [c] + Deescape(t)
  {
    var w := EscapeChar(c) + t;
    assert Width(w) == |EscapeChar(c)| && Head(w) == c;
    assert w[Width(w)..] == t;
  }

  lemma EscapeCons(c: char, s: string)
    ensures Escape([c] + s) == EscapeChar(c) + Escape(s)
  {
    assert ([c] + s)[1..] == s;
  }

  lemma EscapeNil()
    ensures Escape("") == "" && Deescape("") == ""
  {
  }

  /** De-escaping an escaped text followed by anything starts by giving the text back. */
  lemma {:induction false} DeescapePrefix(s: string, rest: string)
    ensures Deescape(Escape(s) + rest) == s + Deescape(rest)
  {
    hide *;
    EscapeNil();
    if s == "" {
      assert Escape(s) + rest == rest;
    } else {
      var c, t := s[0], s[1..];
      assert s == [c] + t;
      EscapeCons(c, t);
      assert Escape(s) + rest == EscapeChar(c) + (Escape(t) + rest);
      DeescapeEscapedChar(c, Escape(t) + rest);
      DeescapePrefix(t, rest);
    }
  }

  lemma {:induction false} RoundTrip(s: string)
    ensures Deescape(Escape(s)) == s
  {
    EscapeNil();
    DeescapePrefix(s, "");
    assert Escape(s) + "" == Escape(s);
  }

  lemma {:induction false} EscapeCanonical(s: string)
    ensures Canonical(Escape(s))
  {
    if s != "" {
      var e := EscapeChar(s[0]);
      assert Escape(s)[|e|..] == Escape(s[1..]);
      EscapeCanonical(s[1..]);
    }
  }

  lemma EscapeHead(t: string)
    requires t != "" && (Width(t) == 2 || !Special(t[0]))
    ensures EscapeChar(Head(t)) == t[..Width(t)]
  {
  }

  lemma {:induction false} CanonicalFixed(t: string)
    requires Canonical(t)
    ensures Escape(Deescape(t)) == t
  {
    if t != "" {
      var rest := t[Width(t)..];
      EscapeCons(Head(t), Deescape(rest));
      CanonicalFixed(rest);
      EscapeHead(t);
      assert t == t[..Width(t)] + rest;
    }
  }

  /** Escaping undoes de-escaping exactly on the canonical texts. */
  lemma {:induction false} EscapeAfterDeescape(t: string)
    ensures Escape(Deescape(t)) == t <==> Canonical(t)
  {
    hide *;
    if Canonical(t) {
      CanonicalFixed(t);
    }
    EscapeCanonical(Deescape(t));
  }

  /** The escape sequences. */
  lemma EscapeTable()
    ensures Escape("\t") == "\\t" && Escape("\n") == "\\n" && Escape("\r") == "\\r"
    ensures Escape("\"") == "\\\"" && Escape("\\") == "\\\\"
    ensures forall c :: Special(c) <==> c in "\t\n\r\"\\"
  {
  }

  /** Characters that play no part in escaping are neither added nor removed. */
  lemma {:induction false} EscapeKeeps(s: string, c: char)
    requires !Special(c) && !IsLetter(c)
    ensures c in Escape(s) <==> c in s
  {
    if s != "" {
      EscapeKeeps(s[1..], c);
      assert s == [s[0]] + s[1..];
    }
  }

  /** Escaped text holds no raw control character, so it can never start a new line. */
  lemma {:induction false} NoRawControl(s: string)
    ensures forall c :: c in Escape(s) ==> c != '\n' && c != '\r' && c != '\t'
  {
    if s != "" {
      NoRawControl(s[1..]);
    }
  }

  /** The number of backslashes right before position `k`. */
  function BackslashesBefore(s: string, k: nat): nat
    requires k <= |s|
  {
    if k > 0 && s[k - 1] == '\\' then 1 + BackslashesBefore(s, k - 1) else 0
  }

  /** A newline, or an `n` behind an odd number of backslashes. */
  predicate NewlineAt(s: string, k: nat)
    requires k < |s|
  {
    s[k] == '\n' || (s[k] == 'n' && BackslashesBefore(s, k) % 2 == 1)
  }

  predicate MakesNewline(s: string) {
    exists k | 0 <= k < |s| :: NewlineAt(s, k)
  }

  /** Where the reader stands after some sequences: behind pairs of backslashes, or at a character that escapes nothing. */
  predicate AtSequence(s: string, i: nat) {
    i <= |s| && (BackslashesBefore(s, i) % 2 == 0 || i == |s| || !IsLetter(s[i]))
  }

  lemma BackslashStep(s: string, k: nat)
    requires k < |s|
    ensures BackslashesBefore(s, k + 1) == if s[k] == '\\' then 1 + BackslashesBefore(s, k) else 0
  {
  }

  /** A character on its own. */
  lemma NextSingle(s: string, i: nat)
    requires AtSequence(s, i) && i < |s| && !(s[i] == '\\' && i + 1 < |s| && IsLetter(s[i + 1]))
    ensures AtSequence(s, i + 1) && (s[i] == '\n' <==> NewlineAt(s, i))
  {
    hide BackslashesBefore;
    BackslashStep(s, i);
  }

  /** A backslash and the letter behind it. */
  lemma NextPair(s: string, i: nat)
    requires AtSequence(s, i) && i + 1 < |s| && s[i] == '\\' && IsLetter(s[i + 1])
    ensures AtSequence(s, i + 2) && !NewlineAt(s, i) && (Unletter(s[i + 1]) == '\n' <==> NewlineAt(s, i + 1))
  {
    hide BackslashesBefore;
    BackslashStep(s, i);
    BackslashStep(s, i + 1);
  }

  lemma NextSequence(s: string, i: nat)
    requires AtSequence(s, i) && i < |s|
    ensures var w := Width(s[i..]);
            && i + w <= |s| && AtSequence(s, i + w)
            && (Head(s[i..]) == '\n' <==> NewlineAt(s, i) || (w == 2 && NewlineAt(s, i + 1)))
  {
    hide *;
    DeescapeUnfold(s, i);
    if Width(s[i..]) == 2 {
      NextPair(s, i);
    } else {
      NextSingle(s, i);
    }
  }

  lemma {:induction false} NewlinesFrom(s: string, i: nat)
    requires i <= |s| && AtSequence(s, i)
    ensures '\n' in Deescape(s[i..]) <==> exists k | i <= k < |s| :: NewlineAt(s, k)
    decreases |s| - i
  {
    hide Width, Head, Deescape, NewlineAt, AtSequence, IsLetter;
    if i == |s| {
      EscapeNil();
      assert s[i..] == "";
    } else {
      DeescapeUnfold(s, i);
      NextSequence(s, i);
      var w := Width(s[i..]);
      NewlinesFrom(s, i + w);
      assert forall k | i <= k < |s| && NewlineAt(s, k) :: k == i || (w == 2 && k == i + 1) || i + w <= k;
    }
  }

  /** De-escaping a text makes a newline exactly if it holds one, or an `n` that an unpaired backslash escapes. */
  lemma NewlineAfterDeescape(s: string)
    ensures '\n' in Deescape(s) <==> MakesNewline(s)
  {
    hide Deescape;
    NewlinesFrom(s, 0);
    assert s[0..] == s;
  }

  /** The reader of a quoted argument: index of the first quote that no escape sequence covers. */
  function CloseQuote(t: string): (n: nat)
    ensures n <= |t|
    ensures n < |t| ==> t[n] == '\"'
  {
    if t == "" || t[0] == '\"' then 0
    else if t[0] == '\\' && |t| > 1 then 2 + CloseQuote(t[2..])
    else 1 + CloseQuote(t[1..])
  }

  /** Between quotes, an escaped text ends at the quote that was put behind it and nowhere earlier. */
  lemma {:induction false} CloseQuoteAfterEscape(s: string, rest: string)
    ensures CloseQuote(Escape(s) + "\"" + rest) == |Escape(s)|
  {
    var t := Escape(s) + "\"" + rest;
    if s != "" {
      var e := EscapeChar(s[0]);
      var u := Escape(s[1..]) + "\"" + rest;
      assert t == e + u;
      assert t[|e|..] == u;
      CloseQuoteAfterEscape(s[1..], rest);
    }
  }

  lemma EscapeUnfold(s: string, i: nat)
    requires i < |s|
    ensures Escape(s[i..]) == EscapeChar(s[i]) + Escape(s[i + 1..])
    ensures EscapeChar(s[i]) == if Special(s[i]) then ['\\', Letter(s[i])] else [s[i]]
  {
    assert s[i..][1..] == s[i + 1..];
  }

  /** The buffer starts with the text. */
  ghost predicate StartsWith(a: array<char>, text: string)
    reads a
  {
    |text| <= a.Length && a[..|text|] == text
  }

  /** One character of the loop, as one or two characters. */
  method PutEscaped(c: char, dst: array<char>, o: nat, ghost out: string) returns (next: nat)
    requires o + 2 <= dst.Length && o == |out| && StartsWith(dst, out)
    modifies dst
    ensures next == |out + EscapeChar(c)| <= o + 2 && StartsWith(dst, out + EscapeChar(c))
  {
    next := o;
    if Special(c) {
      dst[next] := '\\';
      next := next + 1;
      dst[next] := Letter(c);
    } else {
      dst[next] := c;
    }
    next := next + 1;
    assert dst[..next] == dst[..o] + dst[o..next];
  }

  /** The replacement loop of `strescape`, from a private copy `src` of the text into `dst`. */
  method EscapeInto(src: array<char>, n: nat, dst: array<char>)
    requires n < src.Length && NUL !in src[..n]
    requires src != dst && 2 * n + 1 <= dst.Length
    modifies dst
    ensures NUL in dst[..] && Str(dst[..]) == Escape(src[..n])
  {
    hide *;
    EscapeNil();
    ghost var word := src[..n];
    ghost var out, rest := "", Escape(word);
    assert word[0..] == word;
    NothingPut(dst);
    var i, o := 0, 0;
    while i < n
      invariant 0 <= i <= n && |out| == o <= 2 * i && src[..n] == word
      invariant rest == Escape(word[i..]) && Escape(word) == out + rest
      invariant StartsWith(dst, out)
    {
      var c := src[i];
      assert c == word[i];
      EscapeUnfold(word, i);
      o := PutEscaped(c, dst, o, out);
      i := i + 1;
      assert out + rest == (out + EscapeChar(c)) + Escape(word[i..]);
      out, rest := out + EscapeChar(c), Escape(word[i..]);
    }
    assert out == Escape(word);
    Terminate(dst, o, out);
  }

  lemma NothingPut(a: array<char>)
    ensures StartsWith(a, "")
  {
  }

  /** The terminator behind a text that holds no NUL. */
  method Terminate(dst: array<char>, o: nat, ghost out: string)
    requires o == |out| < dst.Length && StartsWith(dst, out) && NUL !in out
    modifies dst
    ensures NUL in dst[..] && Str(dst[..]) == out && dst[o + 1..] == old(dst[o + 1..])
  {
    hide Str, StrLen;
    dst[o] := NUL;
    assert dst[..o] == out;
    HoldsText(dst[..], out);
  }

  /** `strescape`: `buf` is the caller's `*_dst` of `*max` characters, replaced when it is too small. */
  method StrEscape(s: array<char>, buf: array<char>) returns (dst: array<char>)
    requires NUL in s[..]
    modifies buf
    ensures var n := old(StrLen(s[..]));
            if 2 * n + 1 <= buf.Length then dst == buf else fresh(dst) && dst.Length == buf.Length + 2 * n + 1
    ensures dst != buf ==> buf[..] == old(buf[..])
    ensures NUL in dst[..] && Str(dst[..]) == Escape(old(Str(s[..])))
  {
    hide Escape;
    ghost var word := Str(s[..]);
    var n := StrLen(s[..]);
    var src := new char[n + 1];
    forall i | 0 <= i < n + 1 {
      src[i] := s[i];
    }
    assert src[..n] == word;
    var len := n * 2 + 1;
    dst := buf;
    if buf.Length < len {
      dst := new char[buf.Length + len];
    }
    EscapeInto(src, n, dst);
  }

  lemma DeescapeUnfold(s: string, i: nat)
    requires i < |s|
    ensures var w := Width(s[i..]);
            i + w <= |s| && Deescape(s[i..]) == [Head(s[i..])] + Deescape(s[i + w..])
    ensures Width(s[i..]) == if s[i] == '\\' && i + 1 < |s| && IsLetter(s[i + 1]) then 2 else 1
    ensures Head(s[i..]) == if Width(s[i..]) == 2 then Unletter(s[i + 1]) else s[i]
  {
    var here := s[i..];
    assert here[Width(here)..] == s[i + Width(here)..];
  }

  /** One round of the loop: the character that starts at `i` is put at `o`. */
  method TakeDeescaped(s: array<char>, i: nat, o: nat, ghost word: string, ghost out: string) returns (next: nat)
    requires o <= i < |word| < s.Length && s[|word|] == NUL && forall k | i <= k < |word| :: s[k] == word[k]
    requires o == |out| && StartsWith(s, out)
    modifies s
    ensures next == i + Width(word[i..]) <= |word| && s[next..] == old(s[next..])
    ensures StartsWith(s, out + [Head(word[i..])])
    ensures Deescape(word[i..]) == [Head(word[i..])] + Deescape(word[next..])
  {
    hide Deescape, Width, Head;
    DeescapeUnfold(word, i);
    next := i;
    if s[next] == '\\' {
      next := next + 1;
      if IsLetter(s[next]) {
        s[o] := Unletter(s[next]);
      } else {
        next := next - 1;
        if next != o {
          s[o] := s[next];
        }
      }
    } else if next != o {
      s[o] := s[next];
    }
    next := next + 1;
    assert s[..o + 1] == s[..o] + [s[o]];
  }

  /** What has not been read is still there. */
  lemma StillThere(s: seq<char>, i: nat, was: seq<char>)
    requires NUL in was && i < StrLen(was) && |s| == |was| && s[i..] == was[i..]
    ensures StrLen(was) == |Str(was)| < |s| && s[|Str(was)|] == NUL
    ensures forall k | i <= k < |Str(was)| :: s[k] == Str(was)[k]
  {
    hide StrLen, Str;
    StrAt(was);
    forall k | i <= k < |s|
      ensures s[k] == was[k]
    {
      assert s[i..][k - i] == was[i..][k - i];
    }
  }

  lemma TailStays(now: seq<char>, before: seq<char>, was: seq<char>, o: nat, n: nat)
    requires o <= n < |now| == |before| == |was|
    requires now[o + 1..] == before[o + 1..] && before[n..] == was[n..]
    ensures now[n + 1..] == was[n + 1..]
  {
    assert now[n + 1..] == now[o + 1..][n - o..] && before[n + 1..] == before[o + 1..][n - o..];
    assert before[n + 1..] == before[n..][1..] && was[n + 1..] == was[n..][1..];
  }

  /** `strdeescape`: the write index never overtakes the read index, so one buffer is enough. */
  method StrDeescape(s: array<char>)
    requires NUL in s[..]
    modifies s
    ensures NUL in s[..] && Str(s[..]) == Deescape(old(Str(s[..])))
    ensures var n := old(StrLen(s[..])); s[n + 1..] == old(s[n + 1..])
  {
    hide *;
    StrAt(s[..]);
    ghost var was, word := s[..], Str(s[..]);
    var len := StrLen(s[..]);
    EscapeNil();
    ghost var out, rest := "", Deescape(word);
    assert word[0..] == word;
    NothingPut(s);
    var i, o := 0, 0;
    while i < len
      invariant 0 <= o <= i <= len == |word| < s.Length && |out| == o
      invariant s[i..] == was[i..]
      invariant rest == Deescape(word[i..]) && Deescape(word) == out + rest
      invariant StartsWith(s, out)
    {
      StillThere(s[..], i, was);
      ghost var c := Head(word[i..]);
      i := TakeDeescaped(s, i, o, word, out);
      assert out + rest == (out + [c]) + Deescape(word[i..]);
      out, rest := out + [c], Deescape(word[i..]);
      o := o + 1;
    }
    assert rest == "" && out == Deescape(word);
    ghost var before := s[..];
    Terminate(s, o, out);
    TailStays(s[..], before, was, o, len);
  }
}

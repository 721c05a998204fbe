/** The two containers every view prints into: the growing text buffer and the map from screen lines to objects. */
module Buffers {
  import opened Options
  import opened CStrings

  /** Number of newlines in a text, that is the number of screen lines it completes. */
  function Newlines(s: string): nat {
    if s == "" then 0 else (if s[|s| - 1] == '\n' then 1 else 0) + Newlines(s[..|s| - 1])
  }

  lemma {:induction false} NewlinesConcat(s: string, t: string)
    ensures Newlines(s + t) == Newlines(s) + Newlines(t)
    decreases |t|
  {
    if t == "" {
      assert s + t == s;
    } else {
      assert (s + t)[..|s + t| - 1] == s + t[..|t| - 1];
      NewlinesConcat(s, t[..|t| - 1]);
    }
  }

  lemma NoNewlines(s: string)
    requires '\n' !in s
    ensures Newlines(s) == 0
  {
    NewlinesIn(s);
  }

  /** What has changed since the last time is shown in another colour. */
  function Marked(text: string, modified: bool): string {
    if modified then "\U{00B4}c" + text + "`c" else text
  }

  lemma {:induction false} NewlinesIn(s: string)
    ensures Newlines(s) == 0 <==> '\n' !in s
    decreases |s|
  {
    if s != "" {
      NewlinesIn(s[..|s| - 1]);
      assert s == s[..|s| - 1] + [s[|s| - 1]];
    }
  }

  /**
   * `printf` of a text without any arguments. Pairs of percent signs become one; what any other conversion brings is not
   * in the text, as it reads arguments that are not there.
   */
  function Formatted(fmt: string): (r: Option<string>) {
    if fmt == "" then Some("")
    else if fmt[0] != '%' then Behind(fmt[0], Formatted(fmt[1..]))
    else if |fmt| > 1 && fmt[1] == '%' then Behind('%', Formatted(fmt[2..]))
    else None
  }

  function Behind(c: char, rest: Option<string>): Option<string> {
    match rest
    case None => None
    case Some(t) => Some([c] + t)
  }

  /** The format that prints a text as it is. */
  function Doubled(t: string): string {
    if t == "" then "" else (if t[0] == '%' then "%%" else [t[0]]) + Doubled(t[1..])
  }

  /** A format prints a text without arguments exactly if it is that text with every percent sign doubled. */
  lemma {:induction false} DoubledIsFormat(fmt: string, t: string)
    ensures Formatted(fmt) == Some(t) <==> fmt == Doubled(t)
    decreases |fmt|
  {
    if fmt != "" && t != "" {
      if fmt[0] != '%' {
        DoubledIsFormat(fmt[1..], t[1..]);
        assert t == [t[0]] + t[1..];
        if t[0] == fmt[0] {
          assert fmt == Doubled(t) <==> fmt[1..] == Doubled(t[1..]) by {
            assert Doubled(t) == [t[0]] + Doubled(t[1..]) && fmt == [fmt[0]] + fmt[1..];
            assert Doubled(t)[1..] == Doubled(t[1..]);
          }
        }
      } else if |fmt| > 1 && fmt[1] == '%' {
        DoubledIsFormat(fmt[2..], t[1..]);
        assert t == [t[0]] + t[1..];
        if t[0] == '%' {
          assert Doubled(t) == "%%" + Doubled(t[1..]) && fmt == "%%" + fmt[2..];
          assert Doubled(t)[2..] == Doubled(t[1..]);
        }
      } else if t[0] == '%' {
        assert Doubled(t)[1] == '%';
      }
    }
  }

  /** A text used as a format comes out as it is exactly if it holds no percent sign. */
  lemma {:induction false} FormattedIsText(fmt: string)
    ensures Formatted(fmt) == Some(fmt) <==> '%' !in fmt
    ensures Formatted(fmt).Some? ==> |Formatted(fmt).value| <= |fmt|
  {
    if fmt != "" {
      var rest := fmt[1..];
      assert fmt == [fmt[0]] + rest;
      if fmt[0] != '%' {
        FormattedIsText(rest);
      } else if |fmt| > 1 && fmt[1] == '%' {
        FormattedIsText(fmt[2..]);
      }
    }
  }

  /** `dynarray`: a text buffer that grows while `vsnprintf` reports that the formatted text did not fit. */
  class DynArray {
    var s: array<char>
    var idx: nat

    ghost predicate Valid()
      reads this
    {
      idx < s.Length
    }

    /** The accumulated text. */
    ghost function Text(): string
      requires Valid()
      reads this, s
    {
      s[..idx]
    }

    /** What `data` hands out: a C string, which is the whole text as long as that holds no NUL. */
    ghost predicate Shows(text: string)
      reads this, s
    {
      Valid() && Text() == text && s[idx] == NUL
    }

    constructor ()
      ensures Valid() && Text() == "" && fresh(s)
    {
      s := new char[1024];
      idx := 0;
    }

    /** `vsnprintf`: as much of the text as fits, and a terminator. */
    method Format(text: string) returns (i: nat)
      requires Valid()
      modifies s
      ensures Text() == old(Text()) && i == |text|
      ensures i < s.Length - idx ==> s[..idx + i] == old(Text()) + text && s[idx + i] == NUL
    {
      var room := s.Length - idx;
      var n := if |text| < room then |text| else room - 1;
      forall k | 0 <= k < n {
        s[idx + k] := text[k];
      }
      s[idx + n] := NUL;
      return |text|;
    }

    method Add(text: string)
      requires Valid()
      modifies `idx, `s, s
      ensures Shows(old(Text()) + text) && (s == old(s) || fresh(s))
    {
      ghost var before := Text();
      while true
        invariant Valid() && Text() == before && (s == old(s) || fresh(s))
        decreases |text| - (s.Length - idx)
      {
        var i := Format(text);
        if i < s.Length - idx {
          idx := idx + i;
          return;
        }
        var larger := new char[s.Length * 2];
        forall k | 0 <= k < s.Length {
          larger[k] := s[k];
        }
        assert larger[..idx] == s[..idx];
        s := larger;
      }
    }

    method Clear()
      requires Valid()
      modifies `idx, `s, s
      ensures Shows("") && s == old(s)
    {
      idx := 0;
      s[0] := NUL;
    }

    /** The text a reader of `data` sees. */
    lemma DataIsText(text: string)
      requires Shows(text) && NUL !in text
      ensures NUL in s[..] && Str(s[..]) == text
    {
      HoldsText(s[..], text);
    }
  }

  datatype Entry<T> = Entry(line: nat, data: T)

  /** Entries in the order of their lines, no line twice. */
  ghost predicate Increasing<T>(v: seq<Entry<T>>) {
    forall i, j | 0 <= i < j < |v| :: v[i].line < v[j].line
  }

  /** What `find` returns: the data of the last entry that does not lie behind the line. */
  function Lookup<T>(v: seq<Entry<T>>, line: nat): Option<T> {
    if v == [] then None
    else
      var last := v[|v| - 1];
      if last.line <= line then Some(last.data) else Lookup(v[..|v| - 1], line)
  }

  /** In an increasing map, a line belongs to the entry that starts at or before it and ends before the next. */
  lemma {:induction false} LookupBlock<T>(v: seq<Entry<T>>, line: nat, k: nat)
    requires Increasing(v) && k < |v|
    requires v[k].line <= line && (k + 1 < |v| ==> line < v[k + 1].line)
    ensures Lookup(v, line) == Some(v[k].data)
    decreases |v|
  {
    if k + 1 < |v| {
      var front := v[..|v| - 1];
      assert v[|v| - 1].line >= v[k + 1].line;
      assert k + 1 < |front| ==> front[k + 1] == v[k + 1];
      LookupBlock(front, line, k);
    }
  }

  /** Lines before the first entry belong to nothing. */
  lemma {:induction false} LookupBefore<T>(v: seq<Entry<T>>, line: nat)
    requires forall k | 0 <= k < |v| :: line < v[k].line
    ensures Lookup(v, line) == None
    decreases |v|
  {
    if v != [] {
      LookupBefore(v[..|v| - 1], line);
    }
  }

  /** What is found comes from some entry. */
  lemma {:induction false} LookupIsEntry<T>(v: seq<Entry<T>>, line: nat)
    ensures Lookup(v, line).Some? ==> exists e <- v :: e.data == Lookup(v, line).value
    decreases |v|
  {
    if v != [] {
      LookupIsEntry(v[..|v| - 1], line);
      assert v[|v| - 1] in v;
    }
  }

  /** `line_map` */
  class LineMap<T> {
    var v: seq<Entry<T>>

    constructor ()
      ensures v == []
    {
      v := [];
    }

    method Add(line: nat, data: T)
      modifies `v
      ensures v == old(v) + [Entry(line, data)]
    {
      v := v + [Entry(line, data)];
    }

    /** The search runs from the last entry to the first. */
    method Find(line: nat) returns (r: Option<T>)
      ensures r == Lookup(v, line)
    {
      var it := |v|;
      assert v[..it] == v;
      while it > 0
        invariant 0 <= it <= |v| && Lookup(v, line) == Lookup(v[..it], line)
      {
        if v[it - 1].line <= line {
          return Some(v[it - 1].data);
        }
        assert v[..it][..it - 1] == v[..it - 1];
        it := it - 1;
      }
      return None;
    }

    method Clear()
      modifies `v
      ensures v == []
    {
      v := [];
    }
  }
}

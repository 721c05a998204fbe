/** NUL-terminated character buffers: the text held by a buffer is everything before its first NUL. */
module CStrings {

  const NUL := '\0'

  /** `strlen`: the index of the first NUL. */
  function StrLen(a: seq<char>): (n: nat)
    requires NUL in a
    ensures n < |a| && a[n] == NUL && NUL !in a[..n]
  {
    if a[0] == NUL then 0 else 1 + StrLen(a[1..])
  }

  function Str(a: seq<char>): (s: string)
    requires NUL in a
    ensures NUL !in s
  {
    a[..StrLen(a)]
  }

  lemma StrAt(a: seq<char>)
    requires NUL in a
    ensures |Str(a)| == StrLen(a)
    ensures forall k | 0 <= k < StrLen(a) :: a[k] == Str(a)[k] && a[k] != NUL
  {
  }

  lemma FirstNul(a: seq<char>, n: nat)
    requires n < |a| && a[n] == NUL && NUL !in a[..n]
    ensures NUL in a && StrLen(a) == n && Str(a) == a[..n]
  {
    if n > 0 {
      assert a[..n][0] == a[0];
      assert a[1..][..n - 1] == a[..n][1..];
      FirstNul(a[1..], n - 1);
    }
  }

  /** A buffer that starts with a text and then a NUL holds that text. */
  lemma HoldsText(a: seq<char>, text: string)
    requires |text| < |a| && a[|text|] == NUL && NUL !in text
    requires forall k | 0 <= k < |text| :: a[k] == text[k]
    ensures NUL in a && StrLen(a) == |text| && Str(a) == text
  {
    assert a[..|text|] == text;
    FirstNul(a, |text|);
  }
}

/**
 Bytes, C strings inside a buffer, and the raw byte source.
 */
module Bytes {
  newtype Byte = x: int | 0 <= x < 256

  type Text = seq<Byte>

  const NUL: Byte := 0
  const NEWLINE: Byte := 10
  const CARRIAGE_RETURN: Byte := 13

  /** The three bytes of the UTF-8 byte order mark. */
  const BOM: Text := [0xEF, 0xBB, 0xBF]

  datatype Option<+T> = None | Some(value: T)

  /** A `char*` into a known buffer. */
  datatype Pointer = Null | At(index: nat)

  /** The part of `s` before its first NUL: what C code sees of a buffer holding `s`. */
  function UpToNul(s: Text): (r: Text)
    ensures NUL !in r && r <= s
    ensures |r| == |s| || s[|r|] == NUL
  {
    if s == [] || s[0] == NUL then [] else [s[0]] + UpToNul(s[1..])
  }

  lemma {:induction false} UpToNulWhole(s: Text)
    requires NUL !in s
    ensures UpToNul(s) == s
  {
    if s != [] {
      UpToNulWhole(s[1..]);
    }
  }

  lemma {:induction false} UpToNulIs(s: Text, n: nat)
    requires n < |s| && s[n] == NUL && NUL !in s[..n]
    ensures UpToNul(s) == s[..n]
  {
    if n > 0 {
      assert s[..n][1..] == s[1..][..n - 1];
      UpToNulIs(s[1..], n - 1);
    }
  }

  /** Pointer `p` into `s` denotes the NUL-terminated C string `text`. */
  ghost predicate IsCString(s: Text, p: nat, text: Text)
  {
    && p + |text| < |s|
    && s[p..p + |text|] == text
    && s[p + |text|] == NUL
    && NUL !in text
  }

  lemma ConcatStep<T>(s: seq<T>, x: T, later: seq<T>)
    ensures s + ([x] + later) == (s + [x]) + later
  {
  }
}

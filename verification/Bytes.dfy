/**
 Bytes, and numbers as little-endian sequences of them.
 */
module Bytes {

  newtype Byte = b: int | 0 <= b < 256

  type Word = x: int | 0 <= x < 0x1_0000_0000_0000_0000

  function Le(w: nat, n: nat): (s: seq<Byte>)
    ensures |s| == n
  {
    if n == 0 then [] else [(w % 256) as Byte] + Le(w / 256, n - 1)
  }

  function Value(s: seq<Byte>): nat {
    if s == [] then 0 else s[0] as nat + 256 * Value(s[1..])
  }

  function Power(n: nat): nat {
    if n == 0 then 1 else 256 * Power(n - 1)
  }

  lemma {:induction false} LeValue(w: nat, n: nat)
    ensures w < Power(n) ==> Value(Le(w, n)) == w
  {
    if n > 0 {
      LeValue(w / 256, n - 1);
      assert Le(w, n)[1..] == Le(w / 256, n - 1);
    }
  }

  lemma {:induction false} ValueLe(s: seq<Byte>)
    ensures Le(Value(s), |s|) == s && Value(s) < Power(|s|)
  {
    if s != [] {
      ValueLe(s[1..]);
      assert Value(s) / 256 == Value(s[1..]) && Value(s) % 256 == s[0] as nat;
    }
  }

  lemma WordRoundTrip(w: Word)
    ensures Value(Le(w, 8)) == w
  {
    LeValue(w, 8);
    assert Power(4) == 0x1_0000_0000;
    assert Power(8) == 0x1_0000_0000_0000_0000;
  }

  /** Eight bytes are the bytes of exactly one word. */
  lemma WordOfBytes(s: seq<Byte>)
    requires |s| == 8
    ensures Value(s) < 0x1_0000_0000_0000_0000 && Le(Value(s), 8) == s
  {
    ValueLe(s);
    assert Power(4) == 0x1_0000_0000;
    assert Power(8) == 0x1_0000_0000_0000_0000;
  }

  /** The bytes of a sequence of words. */
  function Concat(words: seq<Word>): (s: seq<Byte>)
    ensures |s| == 8 * |words|
  {
    if words == [] then [] else Le(words[0], 8) + Concat(words[1..])
  }

  lemma {:induction false} ConcatAt(words: seq<Word>, i: nat)
    requires i < |words|
    ensures Concat(words)[8 * i..8 * i + 8] == Le(words[i], 8)
  {
    if i > 0 {
      ConcatAt(words[1..], i - 1);
      assert Concat(words)[8 * i..8 * i + 8] == Concat(words[1..])[8 * (i - 1)..8 * (i - 1) + 8];
    }
  }
}

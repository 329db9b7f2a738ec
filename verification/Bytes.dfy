/** Eight-bit quantities shared by the byte-oriented models. */
module Bytes {

  type byte = b: int | 0 <= b < 256

  /** The four bytes of a 32-bit word, highest first. */
  function BytesOfWord(v: nat): (s: seq<byte>)
    requires v < 0x1_0000_0000
    ensures |s| == 4
  {
    [v / 0x100_0000, v / 0x1_0000 % 256, v / 256 % 256, v % 256]
  }

  /** The sum of a run of bytes, the raw material of every checksum here. */
  function Sum(s: seq<byte>): (r: nat) {
    if s == [] then 0 else Sum(s[..|s| - 1]) + s[|s| - 1]
  }

  lemma {:induction false} SumConcat(a: seq<byte>, b: seq<byte>)
    ensures Sum(a + b) == Sum(a) + Sum(b)
  {
    if b == [] {
      assert a + b == a;
    } else {
      assert (a + b)[..|a + b| - 1] == a + b[..|b| - 1];
      SumConcat(a, b[..|b| - 1]);
    }
  }

  lemma {:induction false} SumAppend(s: seq<byte>, b: byte)
    ensures Sum(s + [b]) == Sum(s) + b
  {
    assert (s + [b])[..|s + [b]| - 1] == s;
  }

  lemma {:induction false} SumPrepend(b: byte, s: seq<byte>)
    ensures Sum([b] + s) == b + Sum(s)
  {
    SumConcat([b], s);
    SumAppend([], b);
    assert [] + [b] == [b];
  }

  lemma {:induction false} SumOfThree(a: byte, b: byte, c: byte)
    ensures Sum([a, b, c]) == a + b + c
  {
    SumAppend([], a);
    SumAppend([a], b);
    SumAppend([a, b], c);
    assert [] + [a] == [a] && [a] + [b] == [a, b] && [a, b] + [c] == [a, b, c];
  }
}

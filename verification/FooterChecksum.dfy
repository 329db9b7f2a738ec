/**
 The checksum of an ARM flash image footer: compute_crc adds 32-bit words with an end-around carry
 and returns the complement.
 */
module FooterChecksum {
  const MOD := 0x1_0000_0000
  const ONES := 0xFFFF_FFFF

  type word = w: int | 0 <= w < 0x1_0000_0000

  function Complement(w: word): word { ONES - w }

  /** One turn of the loop, in 32-bit arithmetic. */
  function AddWord(sum: word, val: word): (r: word)
    ensures r == if sum + val <= ONES then sum + val else sum + val - ONES
  {
    var carried := if val > Complement(sum) then (sum + 1) % MOD else sum;
    (carried + val) % MOD
  }

  function Total(ws: seq<word>): nat {
    if ws == [] then 0 else Total(ws[..|ws| - 1]) + ws[|ws| - 1]
  }

  /** The end-around-carry sum of words that add up to t: t reduced to 1 .. 2^32 - 1, and 0 only for 0. */
  function Folded(t: nat): (r: word)
    ensures r == 0 <==> t == 0
    ensures r <= t && (t - r) % ONES == 0
  {
    if t == 0 then 0 else (t - 1) % ONES + 1
  }

  lemma {:induction false} AddFolds(t: nat, val: word)
    ensures AddWord(Folded(t), val) == Folded(t + val)
  {
    if t > 0 {
      var q, r := (t - 1) / ONES, (t - 1) % ONES;
      assert t - 1 == ONES * q + r;
      if r + val < ONES {
        assert t + val - 1 == ONES * q + (r + val);
      } else {
        assert t + val - 1 == ONES * (q + 1) + (r + val - ONES);
      }
    }
  }

  /** The check value of a run of words. */
  function Crc(ws: seq<word>): word { Complement(Folded(Total(ws))) }

  /** compute_crc; a length that is not a number of words yields 0. */
  method ComputeCrc(ws: seq<word>, len: nat) returns (crc: word)
    requires len < MOD && len <= 4 * |ws|
    ensures crc == if len % 4 == 0 then Crc(ws[..len / 4]) else 0
  {
    if len % 4 != 0 { return 0; }
    var sum: word := 0;
    var i := 0;
    while i < len
      invariant 0 <= i <= len && i % 4 == 0 && sum == Folded(Total(ws[..i / 4]))
    {
      var val := ws[i / 4];
      AddFolds(Total(ws[..i / 4]), val);
      assert ws[..i / 4 + 1][..i / 4] == ws[..i / 4];
      sum := AddWord(sum, val);
      i := i + 4;
    }
    crc := Complement(sum);
  }

  lemma {:induction false} TotalZero(ws: seq<word>)
    ensures Total(ws) == 0 <==> forall k :: 0 <= k < |ws| ==> ws[k] == 0
  {
    if ws != [] {
      var n := |ws| - 1;
      TotalZero(ws[..n]);
      if Total(ws) == 0 {
        forall k | 0 <= k < |ws| ensures ws[k] == 0 {
          if k < n { assert ws[k] == ws[..n][k]; }
        }
      }
    }
  }

  /** The check value is 0 exactly for words that add up to a multiple of 2^32 - 1 and are not all 0. */
  lemma {:induction false} ZeroExactly(ws: seq<word>)
    ensures Crc(ws) == 0 <==> Total(ws) % ONES == 0 && exists k :: 0 <= k < |ws| && ws[k] != 0
  {
    TotalZero(ws);
    FoldedOnes(Total(ws));
  }

  lemma {:induction false} FoldedOnes(t: nat)
    ensures Folded(t) == ONES <==> t > 0 && t % ONES == 0
  {
    if t > 0 {
      var q := t / ONES;
      assert t == ONES * q + t % ONES;
      if t % ONES == 0 {
        assert t - 1 == ONES * (q - 1) + (ONES - 1);
      } else {
        assert t - 1 == ONES * q + (t % ONES - 1);
      }
    }
  }

  lemma {:induction false} TotalConcat(a: seq<word>, b: seq<word>)
    ensures Total(a + b) == Total(a) + Total(b)
  {
    if b == [] {
      assert a + b == a;
    } else {
      var n := |b| - 1;
      TotalConcat(a, b[..n]);
      assert (a + b)[..|a| + n] == a + b[..n];
    }
  }

  lemma {:induction false} TotalSplit(ws: seq<word>, k: nat)
    requires k < |ws|
    ensures Total(ws) == Total(ws[..k]) + ws[k] + Total(ws[k + 1..])
  {
    assert ws == ws[..k] + ([ws[k]] + ws[k + 1..]);
    TotalConcat(ws[..k], [ws[k]] + ws[k + 1..]);
    TotalConcat([ws[k]], ws[k + 1..]);
    TotalOne(ws[k]);
  }

  lemma {:induction false} TotalOne(w: word)
    ensures Total([w]) == w
  {
    assert [w][..0] == [];
  }

  lemma {:induction false} WithoutOne(s: seq<word>, k: nat)
    requires k < |s|
    ensures multiset(s[..k] + s[k + 1..]) == multiset(s) - multiset{s[k]}
  {
    assert s == s[..k] + [s[k]] + s[k + 1..];
  }

  /** The order of the words does not matter. */
  lemma {:induction false} OrderDoesNotMatter(a: seq<word>, b: seq<word>)
    requires multiset(a) == multiset(b)
    ensures Total(a) == Total(b) && Crc(a) == Crc(b)
  {
    if a == [] {
      assert |multiset(b)| == |b|;
    } else {
      var n := |a| - 1;
      var last := a[n];
      assert last in multiset(b);
      var k :| 0 <= k < |b| && b[k] == last;
      var b' := b[..k] + b[k + 1..];
      WithoutOne(a, n);
      WithoutOne(b, k);
      assert a[..n] + a[n + 1..] == a[..n];
      OrderDoesNotMatter(a[..n], b');
      TotalSplit(b, k);
      TotalConcat(b[..k], b[k + 1..]);
    }
  }

  /** Storing the check value in a word that was 0 makes the check value 0. */
  lemma {:induction false} StoredValueChecks(ws: seq<word>, k: nat)
    requires k < |ws| && ws[k] == 0
    ensures Crc(ws[k := Crc(ws)]) == 0
  {
    var t := Total(ws);
    var vs := ws[k := Crc(ws)];
    TotalSplit(ws, k);
    TotalSplit(vs, k);
    assert vs[..k] == ws[..k] && vs[k + 1..] == ws[k + 1..];
    assert Total(vs) == t + ONES - Folded(t);
    FoldedOnes(Total(vs));
  }
}

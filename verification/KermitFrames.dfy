/**
 What the receiver accepts, said without its own functions: the bit operations of the code, the
 packets it takes and no others, and packets written out byte by byte.
 */
module KermitFrames {
  import opened Bytes
  import opened KermitWire
  import opened KermitMachine
  import opened KermitSession
  import opened KermitReplies

  // ---------------------------------------------------------------- the code's bit operations

  /** (t + ((t >> 6) & 0x03)) & 0x3f; the bits above the eighth do not matter. */
  function FoldBits(t: bv8): bv8 { (t + ((t >> 6) & 3)) & 0x3F }

  lemma {:induction false} PlusOne(t: bv8)
    ensures (t + 1) as int == if t as int < 255 then t as int + 1 else 0
  {
    if t as int == 255 { assert t == 0xFF; }
  }

  lemma {:induction false} HighBits(t: bv8)
    ensures ((t >> 6) & 3) as int == t as int / 64
  {
  }

  lemma {:induction false} LowSix(t: bv8)
    ensures (t & 0x3F) as int == t as int % 64
  {
  }

  lemma {:induction false} Plus(t: bv8, u: bv8)
    requires u as int < 4
    ensures (t + u) as int % 64 == (t as int + u as int) % 64
  {
    assert u == 0 || u == 1 || u == 2 || u == 3;
    PlusOne(t);
    PlusOne(t + 1);
    PlusOne(t + 1 + 1);
    assert t + 1 + 1 == t + 2 && t + 1 + 1 + 1 == t + 3;
  }

  lemma {:induction false} FoldOfBits(t: bv8)
    ensures FoldBits(t) as int == (t as int + t as int / 64) % 64
  {
    var u := (t >> 6) & 3;
    HighBits(t);
    LowSix(t + u);
    Plus(t, u);
  }

  /** The block check is the code's fold of the character sum, whose low byte is t, made printable. */
  lemma {:induction false} CheckIsFold(sum: nat, t: bv8)
    requires t as int == sum % 256
    ensures Check(sum) == 32 + FoldBits(t) as int
  {
    hide *;
    var r := sum % 256;
    FoldOfLowByte(t, r);
    CheckByLowByte(sum, r);
  }

  lemma {:induction false} FoldOfLowByte(t: bv8, r: int)
    requires t as int == r
    ensures FoldBits(t) as int == (r + r / 64) % 64
  {
    hide FoldBits;
    FoldOfBits(t);
  }

  lemma {:induction false} CheckByLowByte(sum: nat, r: int)
    requires r == sum % 256
    ensures Check(sum) == 32 + (r + r / 64) % 64
  {
    var q := sum / 256;
    assert sum == 256 * q + r;
    assert r / 64 % 4 == r / 64;
    assert sum / 64 == 4 * q + r / 64;
    assert sum / 64 % 4 == r / 64 % 4;
    assert (sum + r / 64 % 4) % 64 == (r + r / 64 % 4) % 64;
  }

  /** Damage in the two high bits of one character always changes the check. */
  lemma {:induction false} CheckSeesHighBits(sum: nat, k: nat)
    requires 1 <= k <= 3
    ensures Check(sum + 64 * k) != Check(sum)
  {
    hide Check;
    var f, g := sum / 64 % 4, (sum / 64 + k) % 4;
    CheckValue(sum);
    CheckValue(sum + 64 * k);
    MoreSixtyFours(sum, k, g);
    DifferentRests4(sum / 64, k);
    if f < g { DifferentRests(sum + f, g - f); } else { DifferentRests(sum + g, f - g); }
  }

  lemma {:induction false} CheckValue(sum: nat)
    ensures Check(sum) == 32 + (sum + sum / 64 % 4) % 64
  {
  }

  lemma {:induction false} MoreSixtyFours(sum: nat, k: nat, g: nat)
    ensures (sum + 64 * k) / 64 == sum / 64 + k
    ensures (sum + 64 * k + g) % 64 == (sum + g) % 64
  {
  }

  lemma {:induction false} DifferentRests4(q: nat, k: nat)
    requires 1 <= k <= 3
    ensures (q + k) % 4 != q % 4
  {
  }

  lemma {:induction false} DifferentRests(x: nat, d: nat)
    requires 0 < d < 64
    ensures (x + d) % 64 != x % 64
  {
  }

  function KtransBits(c: bv8): bv8 {
    if c & 0x60 == 0x40 then c & 0xBF else if c & 0x7F == 0x3F then c | 0x40 else c
  }

  /** ktrans and the test for control characters, as the code writes them. */
  lemma {:induction false} KtransIsCode(c: byte, t: bv8)
    requires t as int == c
    ensures Ktrans(c) == KtransBits(t) as int
  {
    TestsOfBits(t);
  }

  lemma {:induction false} TestsOfBits(t: bv8)
    ensures t & 0x60 == 0x40 <==> t as int / 32 % 4 == 2
    ensures t & 0x7F == 0x3F <==> t as int % 128 == 63
    ensures t & 0x60 == 0x40 ==> (t & 0xBF) as int == t as int - 64
    ensures t & 0x7F == 0x3F ==> (t | 0x40) as int == t as int + 64
  {
  }

  lemma {:induction false} PrintableIsCode(c: byte, t: bv8)
    requires t as int == c
    ensures Printable(c) <==> t & 0xE0 != 0
  {
  }

  // ---------------------------------------------------------------- packets written out

  lemma {:induction false} SumOfFour(a: byte, b: byte, c: byte, d: byte)
    ensures Sum([a, b, c, d]) == a + b + c + d
  {
    SumOfThree(a, b, c);
    SumAppend([a, b, c], d);
    assert [a, b, c] + [d] == [a, b, c, d];
  }

  lemma {:induction false} SumOfFive(a: byte, b: byte, c: byte, d: byte, e: byte)
    ensures Sum([a, b, c, d, e]) == a + b + c + d + e
  {
    SumOfFour(a, b, c, d);
    SumAppend([a, b, c, d], e);
    assert [a, b, c, d] + [e] == [a, b, c, d, e];
  }

  /** Break packet 0. */
  lemma {:induction false} BreakWrittenOut()
    ensures Frame(0, Packet(BREAK, []), false) == [0x01, 0x23, 0x20, 0x42, 0x27, 0x0D]
  {
    SumOfThree(0x23, 0x20, 0x42);
    assert [ToChar(3), ToChar(0), BREAK] + [] == [0x23, 0x20, 0x42];
  }

  /** Data packet 1 with "Hi". */
  lemma {:induction false} DataWrittenOut()
    ensures Frame(1, Packet(DATA, [0x48, 0x69]), false) == [0x01, 0x25, 0x21, 0x44, 0x48, 0x69, 0x5B, 0x0D]
  {
    SumOfFive(0x25, 0x21, 0x44, 0x48, 0x69);
    assert [ToChar(5), ToChar(1), DATA] + [0x48, 0x69] == [0x25, 0x21, 0x44, 0x48, 0x69];
  }

  /** Data packet 2 with "A" in an extended frame. */
  lemma {:induction false} LongDataWrittenOut()
    ensures Frame(2, Packet(DATA, [0x41]), true)
         == [0x01, 0x20, 0x22, 0x44, 0x20, 0x22, 0x2B, 0x41, 0x54, 0x0D]
  {
    SumOfFive(0x20, 0x22, 0x44, 0x20, 0x22);
    var head: seq<byte> := [0x20, 0x22, 0x44, 0x20, 0x22];
    assert [SPACE, ToChar(2), DATA, ToChar(2 / 95), ToChar(2 % 95)] == head;
    assert Check(200) == 0x2B && Check(308) == 0x54;
    SumAppend(head, 0x2B);
    SumAppend(head + [0x2B], 0x41);
    hide Sum, Check, ToChar;
    assert Covered(2, Packet(DATA, [0x41]), true) == head + [0x2B] + [0x41];
  }

  predicate Verdict(p: Phase) { p.Rejected? || p.Accepted? }

  /** Break packet 0 ends the transfer. */
  lemma {:induction false} BreakIsTaken(start: int, mem: map<int, byte>, parms: Parms)
    ensures Run(Init(start, mem, parms), [0x01, 0x23, 0x20, 0x42, 0x27, 0x0D]).phase == Finished
  {
    hide Run, Step, Conclude;
    var m := Init(start, mem, parms);
    var m1 := Step(m, 0x01);
    var m2 := Step(m1, 0x23);
    var m3 := Step(m2, 0x20);
    var m4 := Step(m3, 0x42);
    var m5 := Step(m4, 0x27);
    StepPhase(m, 0x01);
    StepPhase(m1, 0x23);
    StepPhase(m2, 0x20);
    StepPhase(m3, 0x42);
    StepPhase(m4, 0x27);
    StepPhase(m5, 0x0D);
    RunSix(m, 0x01, 0x23, 0x20, 0x42, 0x27, 0x0D);
  }

  lemma {:induction false} StepPhase(m: Machine, c: byte)
    ensures !Verdict(Advance(m.phase, c)) ==> Step(m, c).phase == Advance(m.phase, c)
    ensures Advance(m.phase, c) == Accepted(BREAK) ==> Step(m, c).phase == Finished
  {
  }

  lemma {:induction false} RunSix(m: Machine, a: byte, b: byte, c: byte, d: byte, e: byte, f: byte)
    ensures Run(m, [a, b, c, d, e, f])
         == Step(Step(Step(Step(Step(Step(m, a), b), c), d), e), f)
  {
    hide Run, Step;
    RunTwo(Step(Step(Step(Step(m, a), b), c), d), e, f);
    RunHead(Step(Step(Step(m, a), b), c), d, [e, f]);
    RunHead(Step(Step(m, a), b), c, [d, e, f]);
    RunHead(Step(m, a), b, [c, d, e, f]);
    RunHead(m, a, [b, c, d, e, f]);
    assert [d] + [e, f] == [d, e, f];
    assert [c] + [d, e, f] == [c, d, e, f];
    assert [b] + [c, d, e, f] == [b, c, d, e, f];
    assert [a] + [b, c, d, e, f] == [a, b, c, d, e, f];
  }

  /** Between packets everything but MARK and ^C is skipped, and ^C ends the transfer for good. */
  lemma {:induction false} InterruptStops(m: Machine, noise: seq<byte>, rest: seq<byte>)
    requires m.phase == Wait && forall i :: 0 <= i < |noise| ==> noise[i] != 0x01 && noise[i] != 0x03
    ensures Run(m, noise) == m
    ensures Run(m, noise + [0x03] + rest) == m.(phase := Interrupted)
  {
    WaitSkipsQuiet(m, noise);
    RunConcat(m, noise + [0x03], rest);
    RunConcat(m, noise, [0x03]);
    assert Run(Step(m, 0x03), []) == Step(m, 0x03);
    NothingFollows(m.(phase := Interrupted), rest);
  }

  /** Once the transfer is over no character changes anything. */
  lemma {:induction false} NothingFollows(m: Machine, s: seq<byte>)
    requires m.phase == Interrupted || m.phase == Finished
    ensures Run(m, s) == m
    decreases |s|
  {
    if s != [] {
      assert Step(m, s[0]) == m;
      NothingFollows(m, s[1..]);
    }
  }

  /** ACK and NAK of packet 0. */
  lemma {:induction false} RepliesWrittenOut()
    ensures ReplyBody(0, ACK, []) == [0x01, 0x23, 0x20, 0x59, 0x3E]
    ensures ReplyBody(0, NAK, []) == [0x01, 0x23, 0x20, 0x4E, 0x33]
    ensures Transmitted(Link(0x0D, 2, 0x7F, 0x23), [0x01, 0x23]) == [0x7F, 0x7F, 0x01, 0x23, 0x0D]
  {
    SumOfThree(0x23, 0x20, 0x59);
    SumOfThree(0x23, 0x20, 0x4E);
    assert [ToChar(3), ToChar(0), ACK] + [] == [0x23, 0x20, 0x59];
    assert [ToChar(3), ToChar(0), NAK] + [] == [0x23, 0x20, 0x4E];
    assert Padding(2, 0x7F) == [0x7F, 0x7F];
  }

  /**
   What is offered: packets of 94, no padding, CR, '#', no eight-bit quoting, the type-1 check,
   no repeat counts, and long packets of up to 94 * 95 + 94.
   */
  lemma {:induction false} OfferWrittenOut()
    ensures OfferTo(18) == [0x7E, 0x21, 0x20, 0x40, 0x2D, 0x23, 0x4E, 0x31, 0x4E, 0x22, 0x20, 0x7E, 0x7E]
    ensures forall k: nat :: k < 10 ==> OfferTo(k) == OfferTo(18)[..k]
    ensures forall k: nat :: k >= 10 ==> OfferTo(k) == OfferTo(18)
  {
  }

  /** untochar in eight bits. */
  function Less32(c: int): int { (c - 32) % 256 }

  /**
   The parameters of a Send packet: padding in the third and fourth, terminator in the fifth and
   quote in the sixth character, the usual values where the packet is too short.
   */
  lemma {:induction false} SendParametersApply(m: Machine, p: seq<byte>, t: bv8)
    requires m.parms.ptr == 0 && (|p| >= 4 ==> t as int == p[3])
    ensures var link := Conclude(Fed(m, SEND, p), SEND).link;
            && link.padCount == (if |p| >= 3 then Less32(p[2]) else 0)
            && link.padChar == (if |p| >= 4 then KtransBits(t) as int else 0)
            && link.eol == (if |p| >= 5 then Less32(p[4]) else 0x0D)
            && link.quote == (if |p| >= 6 then p[5] else 0x23)
  {
    hide Fed;
    FedParms(m, p);
    if |p| >= 4 { KtransIsCode(p[3], t); }
    hide KtransBits;
  }

  // ---------------------------------------------------------------- accepted exactly

  /** The automaton accepts a packet of this kind exactly at the last character of s. */
  predicate AcceptsAtEnd(p: Phase, s: seq<byte>, kind: byte)
    decreases |s|
  {
    s != [] &&
    if |s| == 1 then Advance(p, s[0]) == Accepted(kind)
    else !Verdict(Advance(p, s[0])) && AcceptsAtEnd(Advance(p, s[0]), s[1..], kind)
  }

  /** The type-1 check of a run of characters. */
  function Type1(s: seq<byte>): int { 32 + (Sum(s) + Sum(s) / 64 % 4) % 64 }

  ghost predicate NoControls(s: seq<byte>) { forall i :: 0 <= i < |s| ==> s[i] >= 32 }

  /** The characters behind a length character or pair: data, then block check and CR. */
  ghost predicate EndsPacket(before: seq<byte>, s: seq<byte>, count: int) {
    && |s| == (if count > 1 then count - 1 else 0) + 2
    && NoControls(s[..|s| - 1]) && s[|s| - 1] == 0x0D
    && s[|s| - 2] == Type1(before + s[..|s| - 2])
  }

  function Minus(a: int, b: int): int { a - b }

  function Added(a: int, b: int): int { a + b }

  /**
   A packet behind its MARK, from the packet format: length, sequence and kind, in a long packet
   also two length digits to base 95 and a header check, then data, block check and CR.
   */
  ghost predicate IsPacket(s: seq<byte>, kind: byte) {
    && |s| >= 5 && NoControls(s[..3]) && s[2] == kind
    && if s[0] != 0x20 then EndsPacket(s[..3], s[3..], Minus(s[0], 34))
       else
         && |s| >= 8 && NoControls(s[3..5]) && s[5] == Type1(s[..5])
         && EndsPacket(s[..6], s[6..], Minus(s[3], 32) * 95 + Minus(s[4], 32))
  }

  lemma {:induction false} TerminatorAccepts(k: byte, s: seq<byte>, kind: byte)
    ensures AcceptsAtEnd(Terminator(k), s, kind) <==> s == [0x0D] && k == kind
  {
    if |s| > 1 { assert Verdict(Advance(Terminator(k), s[0])); }
  }

  /** The end of a packet, when the characters before add up to sum. */
  ghost predicate EndsWithSum(sum: nat, s: seq<byte>, length: int) {
    && |s| == (if length > 1 then length - 1 else 0) + 2
    && NoControls(s[..|s| - 1]) && s[|s| - 1] == 0x0D
    && s[|s| - 2] == 32 + (sum + Sum(s[..|s| - 2]) + (sum + Sum(s[..|s| - 2])) / 64 % 4) % 64
  }

  lemma {:induction false} CheckCharacterAccepts(sum: nat, k: byte, length: int, s: seq<byte>, kind: byte)
    requires length <= 1
    ensures AcceptsAtEnd(Body(sum, k, length), s, kind) <==> k == kind && EndsWithSum(sum, s, length)
  {
    CheckIsPrintable(sum);
    if |s| > 1 {
      TerminatorAccepts(k, s[1..], kind);
      if |s| == 2 {
        assert s[..0] == [] && s[1..] == [s[1]] && s[..1] == [s[0]];
        assert NoControls(s[..1]) <==> s[0] >= 32;
      }
    }
  }

  lemma {:induction false} BodyAccepts(sum: nat, k: byte, length: int, s: seq<byte>, kind: byte)
    ensures AcceptsAtEnd(Body(sum, k, length), s, kind) <==> k == kind && EndsWithSum(sum, s, length)
    decreases |s|
  {
    if length <= 1 {
      CheckCharacterAccepts(sum, k, length, s, kind);
    } else if |s| > 1 {
      var c, rest := s[0], s[1..];
      assert Advance(Body(sum, k, length), c) == if c >= 32 then Body(sum + c, k, length - 1) else Rejected;
      if c >= 32 {
        BodyAccepts(sum + c, k, length - 1, rest, kind);
      }
      EndsBehind(sum, s, length);
    }
  }

  lemma {:induction false} EndsBehind(sum: nat, s: seq<byte>, length: int)
    requires length > 1 && |s| > 1
    ensures EndsWithSum(sum, s, length) <==> s[0] >= 32 && EndsWithSum(sum + s[0], s[1..], length - 1)
  {
    var rest := s[1..];
    if |s| == length + 1 {
      var n := |s| - 2;
      assert s[..n] == [s[0]] + rest[..n - 1];
      SumPrepend(s[0], rest[..n - 1]);
      assert s[..n + 1] == [s[0]] + rest[..n];
      NoControlsPrepends(s[0], rest[..n]);
    }
  }

  lemma {:induction false} NoControlsPrepends(c: byte, s: seq<byte>)
    ensures NoControls([c] + s) <==> c >= 32 && NoControls(s)
  {
    var t := [c] + s;
    assert t[0] == c;
    forall i | 0 <= i < |s| ensures t[i + 1] == s[i] { }
    if NoControls(t) {
      forall i | 0 <= i < |s| ensures s[i] >= 32 { assert t[i + 1] == s[i]; }
    }
  }

  lemma {:induction false} EndsByParts(before: seq<byte>, s: seq<byte>, count: int)
    ensures EndsPacket(before, s, count) <==> EndsWithSum(Sum(before), s, count)
  {
    if |s| >= 2 { SumConcat(before, s[..|s| - 2]); }
  }

  /** A phase that is neither a verdict nor one character before one. */
  lemma {:induction false} AcceptsBehind(p: Phase, s: seq<byte>, kind: byte)
    requires s != [] && !Advance(p, s[0]).Accepted?
    ensures AcceptsAtEnd(p, s, kind) <==> |s| > 1 && !Advance(p, s[0]).Rejected? && AcceptsAtEnd(Advance(p, s[0]), s[1..], kind)
  {
  }

  /** Where the automaton stands behind length, sequence and kind. */
  function AfterHeader(a: byte, b: byte, k: byte): Phase {
    var sum: nat := a + b + k;
    if a == 0x20 then LengthHigh(sum, k) else Body(sum, k, Minus(a, 34))
  }

  lemma {:induction false} HeaderAccepts(s: seq<byte>, kind: byte)
    ensures AcceptsAtEnd(Length, s, kind) <==>
              |s| > 3 && NoControls(s[..3]) && AcceptsAtEnd(AfterHeader(s[0], s[1], s[2]), s[3..], kind)
  {
    if s != [] {
      AcceptsBehind(Length, s, kind);
      if |s| > 1 && s[0] >= 32 {
        var p1, s1 := Sequence(s[0], UnToChar(s[0])), s[1..];
        assert Advance(Length, s[0]) == p1;
        AcceptsBehind(p1, s1, kind);
        if |s| > 2 && s[1] >= 32 {
          var sum: nat := Added(s[0], s[1]);
          var p2, s2 := Kind(sum, UnToChar(s[0]) - 1), s[2..];
          assert Advance(p1, s1[0]) == p2 && s1[1..] == s2;
          AcceptsBehind(p2, s2, kind);
          if s[2] >= 32 {
            assert Advance(p2, s2[0]) == AfterHeader(s[0], s[1], s[2]);
            assert s2[1..] == s[3..];
          }
        }
      }
    }
    if |s| > 3 { assert NoControls(s[..3]) <==> s[0] >= 32 && s[1] >= 32 && s[2] >= 32 by { ThreeControls(s[..3]); } }
  }

  lemma {:induction false} ThreeControls(s: seq<byte>)
    requires |s| == 3
    ensures NoControls(s) <==> s[0] >= 32 && s[1] >= 32 && s[2] >= 32
  {
  }

  /** The two length digits and the header check of a long packet. */
  lemma {:induction false} LongHeaderAccepts(sum: nat, k: byte, s: seq<byte>, kind: byte)
    ensures AcceptsAtEnd(LengthHigh(sum, k), s, kind) <==>
              && |s| > 3 && s[0] >= 32 && s[1] >= 32 && s[2] == Check(sum + s[0] + s[1])
              && AcceptsAtEnd(Body(sum + s[0] + s[1] + s[2], k, Minus(s[0], 32) * 95 + Minus(s[1], 32)), s[3..], kind)
  {
    hide Check, AcceptsAtEnd, Advance;
    var p := LengthHigh(sum, k);
    if s == [] {
      NothingAccepts(p, s, kind);
    } else {
      DigitAdvances(sum, k, s[0]);
      AcceptsBehind(p, s, kind);
      if |s| > 1 && s[0] >= 32 {
        var high := Minus(s[0], 32);
        var p1, s1 := LengthLow(sum + s[0], k, high), s[1..];
        SecondDigitAdvances(sum + s[0], k, high, s[1]);
        AcceptsBehind(p1, s1, kind);
        if |s| > 2 && s[1] >= 32 {
          var sum2 := sum + s[0] + s[1];
          var length := high * 95 + Minus(s[1], 32);
          var p2, s2 := HeaderCheck(sum2, k, length), s[2..];
          assert s1[1..] == s2;
          HeaderCheckAdvances(sum2, k, length, s[2]);
          AcceptsBehind(p2, s2, kind);
          assert s2[1..] == s[3..];
        }
      }
    }
  }

  lemma {:induction false} NothingAccepts(p: Phase, s: seq<byte>, kind: byte)
    requires s == []
    ensures !AcceptsAtEnd(p, s, kind)
  {
  }

  lemma {:induction false} DigitAdvances(sum: nat, k: byte, c: byte)
    ensures Advance(LengthHigh(sum, k), c) == if c >= 32 then LengthLow(sum + c, k, Minus(c, 32)) else Rejected
  {
  }

  lemma {:induction false} SecondDigitAdvances(sum: nat, k: byte, high: int, c: byte)
    ensures Advance(LengthLow(sum, k, high), c) == if c >= 32 then HeaderCheck(sum + c, k, high * 95 + Minus(c, 32)) else Rejected
  {
  }

  lemma {:induction false} HeaderCheckAdvances(sum: nat, k: byte, length: int, c: byte)
    ensures Advance(HeaderCheck(sum, k, length), c) == if c == Check(sum) then Body(sum + c, k, length) else Rejected
  {
    CheckIsPrintable(sum);
  }

  /** Behind a MARK the receiver accepts exactly the packets of the format, and each at its last character. */
  lemma {:induction false} AcceptsExactly(s: seq<byte>, kind: byte)
    ensures AcceptsAtEnd(Length, s, kind) <==> IsPacket(s, kind)
  {
    HeaderAccepts(s, kind);
    if |s| > 3 {
      hide AcceptsAtEnd, NoControls, EndsPacket, Check;
      SumOfThree(s[0], s[1], s[2]);
      assert s[..3] == [s[0], s[1], s[2]];
      if s[0] != 0x20 {
        BodyAccepts(Sum(s[..3]), s[2], Minus(s[0], 34), s[3..], kind);
        EndsByParts(s[..3], s[3..], Minus(s[0], 34));
        EndsIsLong(s[..3], s[3..], Minus(s[0], 34));
      } else {
        LongPacketExactly(s, kind);
      }
    } else {
      assert !IsPacket(s, kind);
    }
  }

  lemma {:induction false} EndsIsLong(before: seq<byte>, s: seq<byte>, count: int)
    ensures EndsPacket(before, s, count) ==> |s| >= 2
  {
  }

  lemma {:induction false} LongPacketExactly(s: seq<byte>, kind: byte)
    requires |s| > 3 && s[0] == 0x20 && Sum(s[..3]) == Added(Added(s[0], s[1]), s[2])
    ensures AcceptsAtEnd(LengthHigh(Sum(s[..3]), s[2]), s[3..], kind) && NoControls(s[..3]) <==> IsPacket(s, kind)
  {
    var r := s[3..];
    LongHeaderAccepts(Sum(s[..3]), s[2], r, kind);
    if |s| > 6 {
      hide AcceptsAtEnd, EndsPacket, EndsWithSum, Check;
      var count := Minus(s[3], 32) * 95 + Minus(s[4], 32);
      FirstFive(s);
      BodyAccepts(Sum(s[..6]), s[2], count, s[6..], kind);
      EndsByParts(s[..6], s[6..], count);
      EndsIsLong(s[..6], s[6..], count);
      assert r[3..] == s[6..];
      assert NoControls(s[3..5]) <==> s[3] >= 32 && s[4] >= 32 by { TwoControls(s[3..5]); }
    }
  }

  lemma {:induction false} TwoControls(s: seq<byte>)
    requires |s| == 2
    ensures NoControls(s) <==> s[0] >= 32 && s[1] >= 32
  {
  }

  lemma {:induction false} FirstFive(s: seq<byte>)
    requires |s| > 6
    ensures Sum(s[..5]) == Sum(s[..3]) + s[3] + s[4] && Sum(s[..6]) == Sum(s[..5]) + s[5]
    ensures Type1(s[..5]) == Check(Sum(s[..5]))
  {
    SumAppend(s[..3], s[3]);
    SumAppend(s[..4], s[4]);
    SumAppend(s[..5], s[5]);
    assert s[..3] + [s[3]] == s[..4] && s[..4] + [s[4]] == s[..5] && s[..5] + [s[5]] == s[..6];
  }
}

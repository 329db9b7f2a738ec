/**
 Stop-and-wait sessions against the receiver machine: every packet is sent one or more
 times, any attempt may arrive damaged as long as the receiver notices it, and the last
 attempt of each packet is intact. The receiver ends up with exactly the file.
 */
module KermitSession {
  import opened Bytes
  import opened KermitWire
  import opened KermitMachine

  // ---------------------------------------------------------------- meaning of a payload

  /** The bytes a run of data characters stands for, and whether a quote is left pending. */
  datatype Decoded = Decoded(bytes: seq<byte>, escape: bool)

  function Decode(quote: byte, escape: bool, s: seq<byte>): Decoded
    decreases |s|
  {
    if s == [] then Decoded([], escape)
    else if escape then
      var d := Decode(quote, false, s[1..]);
      Decoded([Ktrans(s[0])] + d.bytes, d.escape)
    else if s[0] == quote then Decode(quote, true, s[1..])
    else
      var d := Decode(quote, false, s[1..]);
      Decoded([s[0]] + d.bytes, d.escape)
  }

  lemma {:induction false} DecodeConcat(quote: byte, escape: bool, a: seq<byte>, b: seq<byte>)
    ensures var first := Decode(quote, escape, a);
            var second := Decode(quote, first.escape, b);
            Decode(quote, escape, a + b) == Decoded(first.bytes + second.bytes, second.escape)
    decreases |a|
  {
    if a == [] {
      assert a + b == b;
    } else {
      assert (a + b)[1..] == a[1..] + b;
      var next := !escape && a[0] == quote;
      DecodeConcat(quote, next, a[1..], b);
      var first, rest := Decode(quote, escape, a), Decode(quote, next, a[1..]);
      var second := Decode(quote, first.escape, b);
      if !next {
        assert first.bytes + second.bytes == first.bytes[..1] + (rest.bytes + second.bytes);
      }
    }
  }

  /** Quote characters for which unquoting undoes quoting. */
  predicate UsableQuote(quote: byte) { 33 <= quote <= 62 || 96 <= quote <= 126 }

  lemma {:induction false} QuotedByteDecodes(quote: byte, b: byte)
    requires UsableQuote(quote)
    ensures Decode(quote, false, QuoteByte(quote, b)) == Decoded([b], false)
  {
    var s := QuoteByte(quote, b);
    if |s| == 2 {
      assert s[1..][1..] == [];
      assert Ktrans(s[1]) == b;
      assert Decode(quote, true, s[1..]) == Decoded([b], false);
    } else {
      assert s[1..] == [];
    }
  }

  lemma {:induction false} QuotedDecodes(quote: byte, s: seq<byte>)
    requires UsableQuote(quote)
    ensures Decode(quote, false, QuoteAll(quote, s)) == Decoded(s, false)
  {
    if s != [] {
      QuotedByteDecodes(quote, s[0]);
      QuotedDecodes(quote, s[1..]);
      DecodeConcat(quote, false, QuoteByte(quote, s[0]), QuoteAll(quote, s[1..]));
      assert [s[0]] + s[1..] == s;
    }
  }

  /** Among printable quote characters the usable ones are exactly those that work. */
  lemma {:induction false} QuotingRoundTripsExactlyForUsableQuotes(quote: byte)
    requires 33 <= quote <= 126
    ensures UsableQuote(quote) <==>
            forall s: seq<byte> :: Decode(quote, false, QuoteAll(quote, s)) == Decoded(s, false)
  {
    if UsableQuote(quote) {
      forall s: seq<byte> ensures Decode(quote, false, QuoteAll(quote, s)) == Decoded(s, false) {
        QuotedDecodes(quote, s);
      }
    } else {
      var s: seq<byte> := [quote];
      var q: seq<byte> := [quote, quote];
      assert s[1..] == [] && QuoteAll(quote, s) == q;
      assert q[1..] == [quote] && q[1..][1..] == [];
      assert Decode(quote, true, q[1..]).bytes == [Ktrans(quote)];
      assert Decode(quote, false, q).bytes == [Ktrans(quote)];
    }
  }

  // ---------------------------------------------------------------- sessions

  /** What has been delivered so far. */
  datatype Content = Content(bytes: seq<byte>, escape: bool, quote: byte)

  /** The quote character a Send packet asks for. */
  function AskedQuote(payload: seq<byte>): byte {
    if |payload| > 5 then payload[5] else HASH
  }

  function After(ct: Content, pkt: Packet): Content {
    if pkt.kind == DATA then
      var d := Decode(ct.quote, ct.escape, pkt.payload);
      Content(ct.bytes + d.bytes, d.escape, ct.quote)
    else if pkt.kind == SEND then ct.(quote := AskedQuote(pkt.payload))
    else ct
  }

  function Meaning(pkts: seq<Packet>): Content {
    if pkts == [] then Content([], false, HASH)
    else After(Meaning(pkts[..|pkts| - 1]), pkts[|pkts| - 1])
  }

  /** One transmission attempt. In a damaged one the length and sequence characters arrive
      as such, the receiver rejects at the end of hit, and tail holds no MARK and no ETX. */
  datatype Attempt =
    | Intact(noise: seq<byte>, long: bool)
    | Damaged(noise: seq<byte>, lengthChar: byte, hit: seq<byte>, tail: seq<byte>)

  function Header(n: nat, a: Attempt): Phase
    requires n < 64 && a.Damaged?
  {
    Kind(a.lengthChar + ToChar(n), UnToChar(a.lengthChar) - 1)
  }

  ghost predicate ValidAttempt(n: nat, pkt: Packet, a: Attempt) {
    && n < 64
    && Quiet(a.noise)
    && match a
       case Intact(_, long) => Sendable(pkt, long)
       case Damaged(_, lengthChar, hit, tail) =>
         Printable(lengthChar) && RejectsAtEnd(Header(n, a), hit) && Quiet(tail)
  }

  function AttemptBytes(n: nat, pkt: Packet, a: Attempt): seq<byte>
    requires n < 64
  {
    match a
    case Intact(noise, long) => noise + Frame(n, pkt, long)
    case Damaged(noise, lengthChar, hit, tail) => noise + [MARK, lengthChar, ToChar(n)] + hit + tail
  }

  function AttemptsBytes(n: nat, pkt: Packet, tries: seq<Attempt>): seq<byte>
    requires n < 64
  {
    if tries == [] then []
    else AttemptsBytes(n, pkt, tries[..|tries| - 1]) + AttemptBytes(n, pkt, tries[|tries| - 1])
  }

  /** A packet together with its attempts. */
  datatype Delivery = Delivery(pkt: Packet, tries: seq<Attempt>)

  ghost predicate ValidDelivery(n: nat, d: Delivery) {
    && d.tries != []
    && d.tries[|d.tries| - 1].Intact?
    && forall i :: 0 <= i < |d.tries| ==> ValidAttempt(n, d.pkt, d.tries[i])
  }

  ghost predicate ValidSession(ds: seq<Delivery>) {
    forall i :: 0 <= i < |ds| ==> ValidDelivery(i % 64, ds[i])
  }

  function SessionBytes(ds: seq<Delivery>): seq<byte> {
    if ds == [] then []
    else
      var i := |ds| - 1;
      SessionBytes(ds[..i]) + AttemptsBytes(i % 64, ds[i].pkt, ds[i].tries)
  }

  function Packets(ds: seq<Delivery>): seq<Packet> {
    seq(|ds|, i requires 0 <= i < |ds| => ds[i].pkt)
  }

  // ---------------------------------------------------------------- what the receiver holds

  ghost predicate HoldsBytes(mem: map<int, byte>, start: int, bytes: seq<byte>) {
    forall x :: start <= x < start + |bytes| ==> x in mem && mem[x] == bytes[x - start]
  }

  /** The live state is the content. */
  ghost predicate Holds(m: Machine, start: int, ct: Content) {
    && HoldsBytes(m.sink.mem, start, ct.bytes)
    && m.sink.addr == start + |ct.bytes|
    && m.sink.escape == ct.escape
  }

  /** The checkpoint is the content, taken for sequence number n. */
  ghost predicate Checkpointed(m: Machine, start: int, ct: Content, n: nat) {
    && m.lastN == n && m.n == n
    && m.savedAddr == start + |ct.bytes|
    && m.savedEscape == ct.escape
    && HoldsBytes(m.sink.mem, start, ct.bytes)
    && m.savedAddr <= m.sink.addr
  }

  /** Waiting for an attempt of packet n, first or repeated, with ct delivered before it. */
  ghost predicate Ready(m: Machine, start: int, ct: Content, n: nat) {
    && m.phase == Wait && m.parms.ptr == 0
    && (Checkpointed(m, start, ct, n) || (m.lastN != n && Holds(m, start, ct)))
  }

  lemma {:induction false} WaitSkipsQuiet(m: Machine, s: seq<byte>)
    requires m.phase == Wait && Quiet(s)
    ensures Run(m, s) == m
    decreases |s|
  {
    if s != [] {
      assert s[0] != MARK && s[0] != ETX;
      assert Quiet(s[1..]) by {
        forall i | 0 <= i < |s[1..]| ensures s[1..][i] != MARK && s[1..][i] != ETX {
          assert s[1..][i] == s[i + 1];
        }
      }
      assert Step(m, s[0]) == m;
      WaitSkipsQuiet(m, s[1..]);
    }
  }

  /** MARK, LEN and SEQ of packet n leave both checkpoint and live state at ct. */
  lemma {:induction false} HeaderArrives(m: Machine, start: int, ct: Content, n: nat, lengthChar: byte)
    requires Ready(m, start, ct, n) && n < 64 && Printable(lengthChar)
    ensures var m' := Run(m, [MARK, lengthChar, ToChar(n)]);
            && m'.phase == Kind(lengthChar + ToChar(n), UnToChar(lengthChar) - 1)
            && Checkpointed(m', start, ct, n) && Holds(m', start, ct)
            && m'.link == m.link && m'.parms == m.parms && m'.out == m.out
  {
    var seqChar := ToChar(n);
    var m1 := m.(phase := Length);
    var m2 := m.(phase := Sequence(lengthChar, UnToChar(lengthChar)));
    UnToCharOfToChar(n);
    assert Step(m, MARK) == m1;
    assert Step(m1, lengthChar) == m2;
    SequenceArrives(m2, start, ct, n, seqChar);
    hide Step;
    assert [MARK, lengthChar, seqChar] == [MARK, lengthChar] + [seqChar];
    RunConcat(m, [MARK, lengthChar], [seqChar]);
    RunTwo(m, MARK, lengthChar);
    assert [seqChar][1..] == [];
  }

  lemma {:induction false} SequenceArrives(m: Machine, start: int, ct: Content, n: nat, c: byte)
    requires Ready(m.(phase := Wait), start, ct, n) && m.phase.Sequence? && Printable(c) && UnToChar(c) == n
    ensures var m' := Step(m, c);
            && m'.phase == Kind(m.phase.sum + c, m.phase.length - 1)
            && Checkpointed(m', start, ct, n) && Holds(m', start, ct)
            && m'.link == m.link && m'.parms == m.parms && m'.out == m.out
  {
  }

  /** Inside a packet only the live sink and the parameters move. */
  lemma {:induction false} PacketCharKeepsCheckpoint(m: Machine, start: int, ct: Content, n: nat, c: byte)
    requires InPacket(m.phase) && InPacket(Advance(m.phase, c))
    requires Checkpointed(m, start, ct, n)
    ensures var m' := Step(m, c);
            && m'.phase == Advance(m.phase, c) && m'.link == m.link && m'.out == m.out
            && Checkpointed(m', start, ct, n)
  {
    var m' := Step(m, c);
    assert m'.savedAddr == m.savedAddr;
    assert m'.sink == m.sink || m'.sink == DataChar(m.sink, m.link.quote, c);
    assert AgreeBelow(m.sink.mem, m'.sink.mem, m.savedAddr);
  }

  lemma {:induction false} RejectionRestores(m: Machine, start: int, ct: Content, n: nat, hit: seq<byte>)
    requires InPacket(m.phase) && RejectsAtEnd(m.phase, hit)
    requires Checkpointed(m, start, ct, n)
    ensures var m' := Run(m, hit);
            && m'.phase == Wait && m'.parms.ptr == 0 && m'.link == m.link
            && Checkpointed(m', start, ct, n) && Holds(m', start, ct)
            && m'.out == m.out + Transmitted(m.link, ReplyBody(n, NAK, []))
    decreases |hit|
  {
    var m' := Step(m, hit[0]);
    assert Run(m, hit) == Run(m', hit[1..]);
    if |hit| == 1 {
      assert hit[1..] == [];
      assert m' == Reject(m);
    } else {
      PacketCharKeepsCheckpoint(m, start, ct, n, hit[0]);
      RejectionRestores(m', start, ct, n, hit[1..]);
    }
  }

  lemma {:induction false} DamagedAttemptIsUndone(m: Machine, start: int, ct: Content, n: nat, pkt: Packet, a: Attempt)
    requires a.Damaged? && ValidAttempt(n, pkt, a) && Ready(m, start, ct, n)
    ensures var m' := Run(m, AttemptBytes(n, pkt, a));
            && m'.phase == Wait && m'.parms.ptr == 0 && m'.link == m.link
            && Checkpointed(m', start, ct, n) && Holds(m', start, ct)
            && m'.out == m.out + Transmitted(m.link, ReplyBody(n, NAK, []))
  {
    var header: seq<byte> := [MARK, a.lengthChar, ToChar(n)];
    RunConcat(m, a.noise + header + a.hit, a.tail);
    RunConcat(m, a.noise + header, a.hit);
    RunConcat(m, a.noise, header);
    WaitSkipsQuiet(m, a.noise);
    HeaderArrives(m, start, ct, n, a.lengthChar);
    var m1 := Run(m, header);
    RejectionRestores(m1, start, ct, n, a.hit);
    WaitSkipsQuiet(Run(m1, a.hit), a.tail);
  }

  // ---------------------------------------------------------------- intact attempts

  /** Characters of a packet body taken one after the other. */
  function Fed(m: Machine, kind: byte, s: seq<byte>): Machine
    decreases |s|
  {
    if s == [] then m else Fed(Take(m, kind, s[0]), kind, s[1..])
  }

  lemma {:induction false} BodyArrives(m: Machine, s: seq<byte>)
    requires m.phase.Body? && m.phase.length == |s| + 1 && AllPrintable(s)
    ensures Run(m, s) == Fed(m.(phase := Body(m.phase.sum + Sum(s), m.phase.kind, 1)), m.phase.kind, s)
    decreases |s|
  {
    var Body(sum, kind, length) := m.phase;
    if s == [] {
      assert Sum(s) == 0;
      assert m.(phase := Body(sum, kind, 1)) == m;
    } else {
      assert Printable(s[0]);
      assert AllPrintable(s[1..]) by {
        forall i | 0 <= i < |s[1..]| ensures Printable(s[1..][i]) { assert s[1..][i] == s[i + 1]; }
      }
      BodyArrives(Step(m, s[0]), s[1..]);
      assert s == [s[0]] + s[1..];
      SumConcat([s[0]], s[1..]);
      assert [s[0]][..0] == [];
      assert Sum([s[0]]) == s[0];
    }
  }

  lemma {:induction false} AfterSplits(ct: Content, a: seq<byte>, b: seq<byte>)
    ensures After(ct, Packet(DATA, a + b)) == After(After(ct, Packet(DATA, a)), Packet(DATA, b))
  {
    DecodeConcat(ct.quote, ct.escape, a, b);
    var d1 := Decode(ct.quote, ct.escape, a);
    var d2 := Decode(ct.quote, d1.escape, b);
    assert ct.bytes + (d1.bytes + d2.bytes) == (ct.bytes + d1.bytes) + d2.bytes;
  }

  lemma {:induction false} OneDataChar(sink: Sink, start: int, c: byte, ct: Content)
    requires HoldsBytes(sink.mem, start, ct.bytes)
    requires sink.addr == start + |ct.bytes| && sink.escape == ct.escape
    ensures var sink' := DataChar(sink, ct.quote, c);
            var ct' := After(ct, Packet(DATA, [c]));
            && HoldsBytes(sink'.mem, start, ct'.bytes)
            && sink'.addr == start + |ct'.bytes| && sink'.escape == ct'.escape
            && sink.addr <= sink'.addr && AgreeBelow(sink.mem, sink'.mem, sink.addr)
  {
    var s: seq<byte> := [c];
    assert s[1..] == [];
    assert Decode(ct.quote, false, s[1..]) == Decoded([], false);
    assert Decode(ct.quote, true, s[1..]) == Decoded([], true);
  }

  lemma {:induction false} FedData(m: Machine, start: int, s: seq<byte>, ct: Content)
    requires Holds(m, start, ct) && m.link.quote == ct.quote
    ensures var m' := Fed(m, DATA, s);
            && m' == m.(sink := m'.sink)
            && Holds(m', start, After(ct, Packet(DATA, s)))
            && m.sink.addr <= m'.sink.addr
            && AgreeBelow(m.sink.mem, m'.sink.mem, m.sink.addr)
    decreases |s|
  {
    if s == [] {
      assert ct.bytes + Decode(ct.quote, ct.escape, s).bytes == ct.bytes;
    } else {
      OneDataChar(m.sink, start, s[0], ct);
      var m1 := Take(m, DATA, s[0]);
      var ct1 := After(ct, Packet(DATA, [s[0]]));
      FedData(m1, start, s[1..], ct1);
      assert s == [s[0]] + s[1..];
      AfterSplits(ct, [s[0]], s[1..]);
    }
  }

  /** The first eighteen parameters are kept in order; the pointer saturates at nineteen. */
  lemma {:induction false} FedParms(m: Machine, s: seq<byte>)
    ensures var m' := Fed(m, SEND, s);
            && m' == m.(parms := m'.parms)
            && m'.parms.ptr == (if m.parms.ptr + |s| < 19 then m.parms.ptr + |s| else 19)
            && (forall i :: 0 <= i < m.parms.ptr && i < 19 ==> m'.parms.buf[i] == m.parms.buf[i])
            && (forall i :: 0 <= i < |s| && m.parms.ptr + i < 19 ==>
                  m'.parms.buf[m.parms.ptr + i] == s[i])
    decreases |s|
  {
    if s != [] {
      var m1 := Take(m, SEND, s[0]);
      FedParms(m1, s[1..]);
      var m' := Fed(m, SEND, s);
      forall i | 0 <= i < |s| && m.parms.ptr + i < 19
        ensures m'.parms.buf[m.parms.ptr + i] == s[i]
      {
        if i > 0 {
          assert s[i] == s[1..][i - 1];
          assert m'.parms.buf[m1.parms.ptr + (i - 1)] == s[1..][i - 1];
        }
      }
    }
  }

  lemma {:induction false} FedOther(m: Machine, kind: byte, s: seq<byte>)
    requires kind != DATA && kind != SEND
    ensures Fed(m, kind, s) == m
    decreases |s|
  {
    if s != [] { FedOther(m, kind, s[1..]); }
  }

  lemma {:induction false} FedIgnoresPhase(m: Machine, p: Phase, kind: byte, s: seq<byte>)
    ensures Fed(m.(phase := p), kind, s) == Fed(m, kind, s).(phase := p)
    decreases |s|
  {
    if s != [] { FedIgnoresPhase(Take(m, kind, s[0]), p, kind, s[1..]); }
  }

  lemma {:induction false} RunTwo(m: Machine, a: byte, b: byte)
    ensures Run(m, [a, b]) == Step(Step(m, a), b)
  {
    var s: seq<byte> := [a, b];
    assert s[1..] == [b] && s[1..][1..] == [];
    assert Run(Step(m, a), s[1..]) == Run(Step(Step(m, a), b), []);
  }

  lemma {:induction false} CheckAndTerminator(m: Machine, sum: nat, kind: byte)
    requires m.phase == Body(sum, kind, 1)
    ensures Run(m, [Check(sum), CR]) == Conclude(m, kind)
  {
    CheckIsPrintable(sum);
    var m1 := m.(phase := Terminator(kind));
    assert Step(m, Check(sum)) == m1;
    assert Step(m1, CR) == Conclude(m1, kind);
    RunTwo(m, Check(sum), CR);
  }

  lemma {:induction false} ConcludeIgnoresPhase(m: Machine, p: Phase, kind: byte)
    ensures Conclude(m.(phase := p), kind) == Conclude(m, kind)
  {
  }

  /** Payload, block check and terminator. */
  lemma {:induction false} TailArrives(m: Machine, sum: nat, kind: byte, s: seq<byte>, end: seq<byte>)
    requires m.phase == Body(sum, kind, |s| + 1) && AllPrintable(s)
    requires end == [Check(sum + Sum(s)), CR]
    ensures Run(m, s + end) == Conclude(Fed(m, kind, s), kind)
  {
    var total := sum + Sum(s);
    var m1, m2 := Fed(m, kind, s), Run(m, s);
    var p := Body(total, kind, 1);
    assert m2 == m1.(phase := p) by {
      BodyArrives(m, s);
      FedIgnoresPhase(m, p, kind, s);
    }
    RunConcat(m, s, end);
    assert Run(m2, end) == Conclude(m2, kind) by { CheckAndTerminator(m2, total, kind); }
    ConcludeIgnoresPhase(m1, p, kind);
  }

  /** A short packet, seen from the machine that has read its sequence character. */
  lemma {:induction false} ShortFrameArrives(m: Machine, n: nat, pkt: Packet)
    requires n < 64 && Sendable(pkt, false)
    requires m.phase == Kind(ToChar(|pkt.payload| + 3) + ToChar(n), |pkt.payload| + 2)
    ensures Run(m, Frame(n, pkt, false)[3..]) == Conclude(Fed(m, pkt.kind, pkt.payload), pkt.kind)
  {
    hide Run, Step, Fed, Conclude, Sum, Check, Frame, ToChar;
    var sum := ToChar(|pkt.payload| + 3) + ToChar(n) + pkt.kind;
    var end: seq<byte> := [Check(sum + Sum(pkt.payload)), CR];
    ShortFrameSplits(n, pkt);
    KindArrives(m, sum, pkt);
    RunHead(m, pkt.kind, pkt.payload + end);
    var m1 := m.(phase := Body(sum, pkt.kind, |pkt.payload| + 1));
    TailArrives(m1, sum, pkt.kind, pkt.payload, end);
    FedIgnoresPhase(m, m1.phase, pkt.kind, pkt.payload);
    ConcludeIgnoresPhase(Fed(m, pkt.kind, pkt.payload), m1.phase, pkt.kind);
  }

  lemma {:induction false} ShortFrameSplits(n: nat, pkt: Packet)
    requires n < 64 && |pkt.payload| < 92
    ensures var sum := ToChar(|pkt.payload| + 3) + ToChar(n) + pkt.kind;
            Frame(n, pkt, false)[3..] == [pkt.kind] + (pkt.payload + [Check(sum + Sum(pkt.payload)), CR])
  {
    var head: seq<byte> := [ToChar(|pkt.payload| + 3), ToChar(n), pkt.kind];
    SumConcat(head, pkt.payload);
    SumOfThree(head[0], head[1], head[2]);
    hide Sum, Check, ToChar;
    assert Frame(n, pkt, false) == [MARK] + (head + pkt.payload) + [Check(Sum(head + pkt.payload)), CR];
  }

  lemma {:induction false} KindArrives(m: Machine, sum: nat, pkt: Packet)
    requires m.phase.Kind? && m.phase.sum + pkt.kind == sum && m.phase.length == |pkt.payload| + 2 && Printable(pkt.kind)
    ensures Step(m, pkt.kind) == m.(phase := Body(sum, pkt.kind, |pkt.payload| + 1))
  {
  }

  lemma {:induction false} RunHead(m: Machine, c: byte, s: seq<byte>)
    ensures Run(m, [c] + s) == Run(Step(m, c), s)
  {
    assert ([c] + s)[1..] == s;
  }

  /** The kind, the two extended-length characters and their header check. */
  lemma {:induction false} LongHeaderArrives(m: Machine, kind: byte, hi: nat, lo: nat)
    requires m.phase.Kind? && m.phase.length == -1 && Printable(kind) && hi < 95 && lo < 95
    ensures var sum := m.phase.sum + kind + ToChar(hi) + ToChar(lo);
            var header := [kind, ToChar(hi)] + [ToChar(lo), Check(sum)];
            Run(m, header) == m.(phase := Body(sum + Check(sum), kind, hi * 95 + lo))
  {
    var h, l := ToChar(hi), ToChar(lo);
    var sum := m.phase.sum + kind + h + l;
    UnToCharOfToChar(hi);
    UnToCharOfToChar(lo);
    CheckIsPrintable(sum);
    RunConcat(m, [kind, h], [l, Check(sum)]);
    RunTwo(m, kind, h);
    var m1 := m.(phase := LengthHigh(m.phase.sum + kind, kind));
    var m2 := m.(phase := LengthLow(m.phase.sum + kind + h, kind, hi));
    var m3 := m.(phase := HeaderCheck(sum, kind, hi * 95 + lo));
    assert Step(m, kind) == m1;
    assert Step(m1, h) == m2;
    assert Step(m2, l) == m3;
    RunTwo(m2, l, Check(sum));
  }

  lemma {:induction false} LongHeaderSum(n: nat, kind: byte, h: byte, l: byte)
    requires n < 64
    ensures Sum([SPACE, ToChar(n), kind, h, l]) == SPACE + ToChar(n) + kind + h + l
  {
    var s: seq<byte> := [SPACE, ToChar(n), kind];
    SumOfThree(s[0], s[1], s[2]);
    SumAppend(s, h);
    SumAppend(s + [h], l);
    assert s + [h] + [l] == [SPACE, ToChar(n), kind, h, l];
  }

  lemma {:induction false} LongFrameArrives(m: Machine, n: nat, pkt: Packet)
    requires n < 64 && Sendable(pkt, true)
    requires m.phase == Kind(SPACE + ToChar(n), -1)
    ensures Run(m, Frame(n, pkt, true)[3..]) == Conclude(Fed(m, pkt.kind, pkt.payload), pkt.kind)
  {
    hide Run, Check, ToChar, Fed, Conclude, Sum, Frame;
    var len := |pkt.payload| + 1;
    var h, l := ToChar(len / 95), ToChar(len % 95);
    var sum := SPACE + ToChar(n) + pkt.kind + h + l;
    var header: seq<byte> := [pkt.kind, h] + [l, Check(sum)];
    var end: seq<byte> := [Check(sum + Check(sum) + Sum(pkt.payload)), CR];
    LongFrameSplits(n, pkt);
    assert Frame(n, pkt, true)[3..] == header + (pkt.payload + end);
    LongHeaderArrives(m, pkt.kind, len / 95, len % 95);
    AfterLongHeader(m, sum, pkt, header, end);
  }

  lemma {:induction false} AfterLongHeader(m: Machine, sum: nat, pkt: Packet, header: seq<byte>, end: seq<byte>)
    requires Sendable(pkt, true)
    requires Run(m, header) == m.(phase := Body(sum + Check(sum), pkt.kind, |pkt.payload| + 1))
    requires end == [Check(sum + Check(sum) + Sum(pkt.payload)), CR]
    ensures Run(m, header + (pkt.payload + end)) == Conclude(Fed(m, pkt.kind, pkt.payload), pkt.kind)
  {
    hide Run, Check, Fed, Conclude, Sum;
    var m1 := Run(m, header);
    RunConcat(m, header, pkt.payload + end);
    TailArrives(m1, sum + Check(sum), pkt.kind, pkt.payload, end);
    FedIgnoresPhase(m, m1.phase, pkt.kind, pkt.payload);
    ConcludeIgnoresPhase(Fed(m, pkt.kind, pkt.payload), m1.phase, pkt.kind);
  }

  lemma {:induction false} LongFrameSplits(n: nat, pkt: Packet)
    requires n < 64 && Sendable(pkt, true)
    ensures var len := |pkt.payload| + 1;
            var h, l := ToChar(len / 95), ToChar(len % 95);
            var sum := SPACE + ToChar(n) + pkt.kind + h + l;
            var header: seq<byte> := [pkt.kind, h] + [l, Check(sum)];
            var tail: seq<byte> := pkt.payload + [Check(sum + Check(sum) + Sum(pkt.payload)), CR];
            Frame(n, pkt, true) == [MARK, SPACE, ToChar(n)] + header + tail
  {
    var len := |pkt.payload| + 1;
    var h, l := ToChar(len / 95), ToChar(len % 95);
    var head: seq<byte> := [SPACE, ToChar(n), pkt.kind, h, l];
    LongHeaderSum(n, pkt.kind, h, l);
    SumAppend(head, Check(Sum(head)));
    SumConcat(head + [Check(Sum(head))], pkt.payload);
  }

  /** Link parameters after an accepted packet. */
  ghost predicate LinkAfter(link: Link, before: Link, pkt: Packet) {
    if pkt.kind == SEND then link.quote == AskedQuote(pkt.payload) else link == before
  }

  lemma {:induction false} ConcludedPacket(m: Machine, start: int, ct: Content, n: nat, pkt: Packet)
    requires Checkpointed(m, start, ct, n) && Holds(m, start, ct)
    requires pkt.kind == DATA ==> m.link.quote == ct.quote
    requires m.parms.ptr == 0
    ensures var m' := Conclude(Fed(m, pkt.kind, pkt.payload), pkt.kind);
            && m'.phase == (if pkt.kind == BREAK then Finished else Wait)
            && (pkt.kind != BREAK ==> m'.parms.ptr == 0)
            && Checkpointed(m', start, ct, n)
            && HoldsBytes(m'.sink.mem, start, After(ct, pkt).bytes)
            && m'.sink.addr == start + |After(ct, pkt).bytes|
            && m'.sink.escape == After(ct, pkt).escape
            && LinkAfter(m'.link, m.link, pkt)
  {
    if pkt.kind == DATA {
      FedData(m, start, pkt.payload, ct);
      assert pkt == Packet(DATA, pkt.payload);
    } else if pkt.kind == SEND {
      FedParms(m, pkt.payload);
      var m1 := Fed(m, SEND, pkt.payload);
      if |pkt.payload| > 5 {
        assert m1.parms.buf[m.parms.ptr + 5] == pkt.payload[5];
      }
    } else {
      FedOther(m, pkt.kind, pkt.payload);
    }
  }

  lemma {:induction false} IntactAttemptIsTaken(m: Machine, start: int, ct: Content, n: nat, pkt: Packet, a: Attempt)
    requires a.Intact? && ValidAttempt(n, pkt, a) && Ready(m, start, ct, n)
    requires pkt.kind == DATA ==> m.link.quote == ct.quote
    ensures var m' := Run(m, AttemptBytes(n, pkt, a));
            && m'.phase == (if pkt.kind == BREAK then Finished else Wait)
            && (pkt.kind != BREAK ==> m'.parms.ptr == 0)
            && Checkpointed(m', start, ct, n) && Holds(m', start, After(ct, pkt))
            && LinkAfter(m'.link, m.link, pkt)
  {
    var frame := Frame(n, pkt, a.long);
    var header, rest := frame[..3], frame[3..];
    var lengthChar := frame[1];
    var m1 := Run(m, header);
    assert Run(m, a.noise + frame) == Run(m, frame) by {
      RunConcat(m, a.noise, frame);
      WaitSkipsQuiet(m, a.noise);
    }
    assert Run(m, frame) == Run(m1, rest) by {
      assert frame == header + rest;
      RunConcat(m, header, rest);
    }
    assert header == [MARK, lengthChar, ToChar(n)];
    if !a.long { UnToCharOfToChar(|pkt.payload| + 3); }
    HeaderArrives(m, start, ct, n, lengthChar);
    assert Run(m1, rest) == Conclude(Fed(m1, pkt.kind, pkt.payload), pkt.kind) by {
      if a.long { LongFrameArrives(m1, n, pkt); } else { ShortFrameArrives(m1, n, pkt); }
    }
    ConcludedPacket(m1, start, ct, n, pkt);
  }

  // ---------------------------------------------------------------- whole sessions

  /** All attempts of one packet: damaged and repeated ones leave no trace. */
  lemma {:induction false} AttemptsDeliver(m: Machine, start: int, ct: Content, n: nat, pkt: Packet, tries: seq<Attempt>)
    requires Ready(m, start, ct, n) && n < 64
    requires pkt.kind == BREAK ==> forall i :: 0 <= i < |tries| ==> tries[i].Damaged?
    requires pkt.kind != SEND ==> m.link.quote == ct.quote
    requires forall i :: 0 <= i < |tries| ==> ValidAttempt(n, pkt, tries[i])
    ensures var m' := Run(m, AttemptsBytes(n, pkt, tries));
            && Ready(m', start, ct, n)
            && (pkt.kind != SEND ==> m'.link.quote == ct.quote)
            && (tries != [] && tries[|tries| - 1].Intact? ==>
                  Checkpointed(m', start, ct, n) && Holds(m', start, After(ct, pkt))
                  && m'.link.quote == After(ct, pkt).quote)
  {
    if tries != [] {
      var last := tries[|tries| - 1];
      var before := tries[..|tries| - 1];
      AttemptsDeliver(m, start, ct, n, pkt, before);
      var m1 := Run(m, AttemptsBytes(n, pkt, before));
      RunConcat(m, AttemptsBytes(n, pkt, before), AttemptBytes(n, pkt, last));
      if last.Damaged? {
        DamagedAttemptIsUndone(m1, start, ct, n, pkt, last);
      } else {
        IntactAttemptIsTaken(m1, start, ct, n, pkt, last);
      }
    }
  }

  /** The receiver waits, count packets into a session, holding content ct. */
  ghost predicate Delivered(m: Machine, start: int, ct: Content, count: nat) {
    && m.phase == Wait && m.parms.ptr == 0
    && m.lastN == (if count == 0 then -1 else (count - 1) % 64)
    && Holds(m, start, ct)
    && m.link.quote == ct.quote
  }

  lemma {:induction false} NextDelivery(m: Machine, start: int, ct: Content, i: nat, d: Delivery)
    requires Delivered(m, start, ct, i) && ValidDelivery(i % 64, d) && d.pkt.kind != BREAK
    ensures Delivered(Run(m, AttemptsBytes(i % 64, d.pkt, d.tries)), start, After(ct, d.pkt), i + 1)
  {
    hide Run, AttemptsBytes, ValidAttempt, HoldsBytes, After;
    AttemptsDeliver(m, start, ct, i % 64, d.pkt, d.tries);
  }

  /** A session without a Break packet delivers the meaning of its packets. */
  lemma {:induction false} SessionDelivers(start: int, mem: map<int, byte>, parms: Parms, ds: seq<Delivery>)
    requires ValidSession(ds)
    requires forall i :: 0 <= i < |ds| ==> ds[i].pkt.kind != BREAK
    ensures Delivered(Run(Init(start, mem, parms), SessionBytes(ds)), start, Meaning(Packets(ds)), |ds|)
  {
    if ds != [] {
      hide Run, AttemptsBytes, ValidDelivery, Delivered, After;
      var i := |ds| - 1;
      var before, m0 := ds[..i], Init(start, mem, parms);
      SessionDelivers(start, mem, parms, before);
      assert Packets(ds)[..i] == Packets(before);
      assert ValidDelivery(i % 64, ds[i]);
      NextDelivery(Run(m0, SessionBytes(before)), start, Meaning(Packets(before)), i, ds[i]);
      RunConcat(m0, SessionBytes(before), AttemptsBytes(i % 64, ds[i].pkt, ds[i].tries));
    }
  }

  /** The payloads of the D packets, in order. */
  function DataChars(pkts: seq<Packet>): seq<byte> {
    if pkts == [] then []
    else
      var last := pkts[|pkts| - 1];
      DataChars(pkts[..|pkts| - 1]) + (if last.kind == DATA then last.payload else [])
  }

  /** With one Send packet in front, the content is the decoding of all data characters
      together, however they are cut into packets. */
  lemma {:induction false} MeaningDecodesJointly(pkts: seq<Packet>)
    requires pkts != [] && pkts[0].kind == SEND
    requires forall i :: 0 < i < |pkts| ==> pkts[i].kind != SEND
    ensures var quote := AskedQuote(pkts[0].payload);
            var d := Decode(quote, false, DataChars(pkts));
            Meaning(pkts) == Content(d.bytes, d.escape, quote)
  {
    var quote := AskedQuote(pkts[0].payload);
    var before, last := pkts[..|pkts| - 1], pkts[|pkts| - 1];
    if |pkts| == 1 {
      assert before == [];
      assert DataChars(before) == [] && DataChars(pkts) == [];
      assert Meaning(before) == Content([], false, HASH);
    } else {
      MeaningDecodesJointly(before);
      if last.kind == DATA {
        DecodeConcat(quote, false, DataChars(before), last.payload);
      } else {
        assert DataChars(pkts) == DataChars(before);
      }
    }
  }

  /** A Break packet, whose first intact attempt is also its last. */
  ghost predicate EndsTransfer(d: Delivery) {
    d.pkt.kind == BREAK && forall i :: 0 <= i < |d.tries| - 1 ==> d.tries[i].Damaged?
  }

  /** A whole transfer: Send-Init asking for a usable quote, then any packets that are
      neither Send nor Break and whose data characters quote the file, then Break. */
  ghost predicate TransfersFile(ds: seq<Delivery>, file: seq<byte>) {
    && |ds| >= 2
    && ds[0].pkt.kind == SEND
    && EndsTransfer(ds[|ds| - 1])
    && (forall i :: 0 < i < |ds| - 1 ==> ds[i].pkt.kind != SEND && ds[i].pkt.kind != BREAK)
    && var quote := AskedQuote(ds[0].pkt.payload);
       UsableQuote(quote) && DataChars(Packets(ds[..|ds| - 1])) == QuoteAll(quote, file)
  }

  /** The receiver finishes, reports the size of the file, and has it in memory; memory
      below the load address is as it was. */
  lemma {:induction false} FileIsDelivered(start: int, mem: map<int, byte>, parms: Parms, ds: seq<Delivery>, file: seq<byte>)
    requires ValidSession(ds) && TransfersFile(ds, file)
    ensures var m := Run(Init(start, mem, parms), SessionBytes(ds));
            && m.phase == Finished
            && m.sink.addr - start == |file|
            && HoldsBytes(m.sink.mem, start, file)
            && AgreeBelow(mem, m.sink.mem, start)
  {
    hide Run, AttemptsBytes, ValidAttempt, After;
    var i := |ds| - 1;
    var before, last := ds[..i], ds[i];
    var m0 := Init(start, mem, parms);
    var pkts := Packets(before);
    SessionDelivers(start, mem, parms, before);
    assert forall k :: 0 < k < |pkts| ==> pkts[k].kind != SEND;
    MeaningDecodesJointly(pkts);
    QuotedDecodes(AskedQuote(ds[0].pkt.payload), file);
    var m1 := Run(m0, SessionBytes(before));
    assert (i - 1) % 64 != i % 64;
    assert ValidDelivery(i % 64, last);
    RunConcat(m0, SessionBytes(before), AttemptsBytes(i % 64, last.pkt, last.tries));
    BreakFinishes(m1, start, Meaning(pkts), i % 64, last);
    RunKeepsCheckpointedMemory(m0, SessionBytes(ds));
  }

  lemma {:induction false} BreakFinishes(m: Machine, start: int, ct: Content, n: nat, d: Delivery)
    requires n < 64 && ValidDelivery(n, d) && EndsTransfer(d)
    requires Ready(m, start, ct, n) && m.link.quote == ct.quote
    ensures var m' := Run(m, AttemptsBytes(n, d.pkt, d.tries));
            m'.phase == Finished && Holds(m', start, ct)
  {
    hide Run, AttemptBytes;
    var k := |d.tries| - 1;
    var before := d.tries[..k];
    AttemptsDeliver(m, start, ct, n, d.pkt, before);
    RunConcat(m, AttemptsBytes(n, d.pkt, before), AttemptBytes(n, d.pkt, d.tries[k]));
    IntactAttemptIsTaken(Run(m, AttemptsBytes(n, d.pkt, before)), start, ct, n, d.pkt, d.tries[k]);
  }
}

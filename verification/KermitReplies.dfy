/**
 What the receiver says back, read with its own framing rules, and what a damaged header
 does: the one error the receiver does not recover from.
 */
module KermitReplies {
  import opened Bytes
  import opened KermitWire
  import opened KermitMachine
  import opened KermitSession

  /** The framing automaton over a run of characters. */
  function AdvanceAll(p: Phase, s: seq<byte>): Phase
    decreases |s|
  {
    if s == [] then p else AdvanceAll(Advance(p, s[0]), s[1..])
  }

  lemma {:induction false} AdvanceAllConcat(p: Phase, a: seq<byte>, b: seq<byte>)
    ensures AdvanceAll(p, a + b) == AdvanceAll(AdvanceAll(p, a), b)
    decreases |a|
  {
    if a == [] {
      assert a + b == b;
    } else {
      assert (a + b)[1..] == a[1..] + b;
      AdvanceAllConcat(Advance(p, a[0]), a[1..], b);
    }
  }

  lemma {:induction false} BodyAdvances(sum: nat, kind: byte, s: seq<byte>)
    requires AllPrintable(s)
    ensures AdvanceAll(Body(sum, kind, |s| + 1), s) == Body(sum + Sum(s), kind, 1)
    decreases |s|
  {
    if s != [] {
      assert AllPrintable(s[1..]) by {
        forall i | 0 <= i < |s[1..]| ensures Printable(s[1..][i]) { assert s[1..][i] == s[i + 1]; }
      }
      BodyAdvances(sum + s[0], kind, s[1..]);
      SumAppend([], s[0]);
      SumConcat([s[0]], s[1..]);
      assert [] + [s[0]] == [s[0]] && [s[0]] + s[1..] == s;
    }
  }

  lemma {:induction false} HeaderAdvances(a: byte, b: byte, kind: byte)
    requires 35 <= a && Printable(b) && Printable(kind)
    ensures AdvanceAll(Wait, [MARK] + [a, b, kind]) == Body(a + b + kind, kind, UnToChar(a) - 2)
  {
    var s: seq<byte> := [MARK] + [a, b, kind];
    assert s[1..] == [a, b, kind] && s[1..][1..] == [b, kind] && s[1..][1..][1..] == [kind];
    assert s[1..][1..][1..][1..] == [];
    assert AdvanceAll(Body(a + b + kind, kind, UnToChar(a) - 2), []) == Body(a + b + kind, kind, UnToChar(a) - 2);
    assert AdvanceAll(Kind(a + b, UnToChar(a) - 1), [kind]) == Body(a + b + kind, kind, UnToChar(a) - 2);
    assert AdvanceAll(Sequence(a, UnToChar(a)), [b, kind]) == AdvanceAll(Kind(a + b, UnToChar(a) - 1), [kind]);
    assert AdvanceAll(Length, [a, b, kind]) == AdvanceAll(Sequence(a, UnToChar(a)), [b, kind]);
  }

  /** Any reply carries the right length and block check: the receiver's own automaton takes
      it up to the terminator, and takes the terminator exactly when it is a CR. */
  lemma {:induction false} ReplyIsWellFramed(n: nat, kind: byte, data: seq<byte>, eol: byte)
    requires n < 224 && Printable(kind) && AllPrintable(data) && |data| <= 13
    ensures var body := ReplyBody(n, kind, data);
            && AdvanceAll(Wait, body) == Terminator(kind)
            && (AdvanceAll(Wait, body + [eol]).Accepted? <==> eol == CR)
            && UnToChar(body[2]) == n && |body| + 2 <= 24
  {
    var head: seq<byte> := [ToChar(|data| + 3), ToChar(n), kind];
    UnToCharOfToChar(|data| + 3);
    UnToCharOfToChar(n);
    HeaderAdvances(head[0], head[1], kind);
    SumOfThree(head[0], head[1], kind);
    SumConcat(head, data);
    var sum := Sum(head + data);
    var check := Check(sum);
    var body := ReplyBody(n, kind, data);
    assert body == [MARK] + head + data + [check];
    EndAdvances(sum, kind, eol);
    hide AdvanceAll, Sum, Check, ToChar, ReplyBody;
    BodyAdvances(head[0] + head[1] + kind, kind, data);
    AdvanceAllConcat(Wait, [MARK] + head, data);
    AdvanceAllConcat(Wait, [MARK] + head + data, [check]);
    AdvanceAllConcat(Wait, body, [eol]);
  }

  /** Block check and terminator. */
  lemma {:induction false} EndAdvances(sum: nat, kind: byte, eol: byte)
    ensures AdvanceAll(Body(sum, kind, 1), [Check(sum)]) == Terminator(kind)
    ensures AdvanceAll(Terminator(kind), [eol]).Accepted? <==> eol == CR
  {
    CheckIsPrintable(sum);
    var c := Check(sum);
    assert [c][1..] == [] && [eol][1..] == [];
    assert AdvanceAll(Advance(Body(sum, kind, 1), c), []) == Advance(Body(sum, kind, 1), c);
    assert AdvanceAll(Advance(Terminator(kind), eol), []) == Advance(Terminator(kind), eol);
  }

  lemma {:induction false} OfferIsPrintable(k: nat)
    ensures AllPrintable(OfferTo(k)) && |OfferTo(k)| <= 13
  {
    assert AllPrintable(OFFER);
  }

  // ---------------------------------------------------------------- everything the receiver says

  /** A reply and the link parameters it is sent with. */
  datatype Response = Response(link: Link, n: int, kind: byte, data: seq<byte>)

  /** The answer to the character that ends a packet; the parameters of a Send packet apply to its own answer. */
  function Answers(m: Machine, c: byte): seq<Response> {
    match Advance(m.phase, c)
    case Rejected => [Response(m.link, m.n, NAK, [])]
    case Accepted(kind) =>
      if kind == SEND then [Response(Negotiated(m.parms), m.n, ACK, OfferTo(ParmCount(m.parms)))]
      else [Response(m.link, m.n, ACK, [])]
    case _ => []
  }

  /** The answers along a run: one for every packet that ends, well or badly. */
  function AllAnswers(m: Machine, s: seq<byte>): seq<Response>
    decreases |s|
  {
    if s == [] then [] else Answers(m, s[0]) + AllAnswers(Step(m, s[0]), s[1..])
  }

  function Said(rs: seq<Response>): seq<byte> {
    if rs == [] then []
    else Transmitted(rs[0].link, ReplyBody(rs[0].n, rs[0].kind, rs[0].data)) + Said(rs[1..])
  }

  /** Length, check and sequence character pass the receiver's own framing, inside 24 bytes. */
  ghost predicate WellFramed(r: Response) {
    && (r.kind == ACK || r.kind == NAK)
    && var body := ReplyBody(r.n, r.kind, r.data);
       && AdvanceAll(Wait, body) == Terminator(r.kind)
       && (AdvanceAll(Wait, body + [r.link.eol]).Accepted? <==> r.link.eol == CR)
       && UnToChar(body[2]) == r.n && |body| + 2 <= 24
  }

  lemma {:induction false} SaidConcat(a: seq<Response>, b: seq<Response>)
    ensures Said(a + b) == Said(a) + Said(b)
  {
    if a == [] {
      assert a + b == b;
    } else {
      assert (a + b)[1..] == a[1..] + b;
      SaidConcat(a[1..], b);
    }
  }

  lemma {:induction false} SaidOne(r: Response)
    ensures Said([r]) == Transmitted(r.link, ReplyBody(r.n, r.kind, r.data))
  {
    assert [r][1..] == [] && Said([]) == [];
  }

  /** One character: an answer goes out exactly when it ends a packet, ACK exactly when the packet is accepted. */
  lemma {:induction false} EveryVerdictIsAnswered(m: Machine, c: byte)
    requires 0 <= m.n < 224
    ensures Step(m, c).out == m.out + Said(Answers(m, c)) && 0 <= Step(m, c).n < 224
    ensures forall r :: r in Answers(m, c) ==> WellFramed(r) && (r.kind == ACK <==> Advance(m.phase, c).Accepted?)
    ensures Answers(m, c) == [] <==> !Advance(m.phase, c).Accepted? && !Advance(m.phase, c).Rejected?
  {
    hide Said, Transmitted, ReplyBody, AdvanceAll;
    var rs := Answers(m, c);
    if rs == [] {
      SaidNothing(m.out);
      SequenceInRange(m, c);
    } else {
      SaidOne(rs[0]);
      OfferIsPrintable(ParmCount(m.parms));
      OfferIsPrintable(0);
      assert OfferTo(0) == [];
      ReplyIsWellFramed(m.n, rs[0].kind, rs[0].data, rs[0].link.eol);
      assert rs == [rs[0]];
    }
  }

  lemma {:induction false} SaidNothing(out: seq<byte>)
    ensures out + Said([]) == out
  {
  }

  lemma {:induction false} SequenceInRange(m: Machine, c: byte)
    requires 0 <= m.n < 224 && Answers(m, c) == []
    ensures Step(m, c).out == m.out && 0 <= Step(m, c).n < 224
  {
  }

  /** The output of every run is the answers to the packets that ended in it, and nothing else. */
  lemma {:induction false} RunIsAnswered(m: Machine, s: seq<byte>)
    requires 0 <= m.n < 224
    ensures Run(m, s).out == m.out + Said(AllAnswers(m, s))
    ensures forall r :: r in AllAnswers(m, s) ==> WellFramed(r)
    decreases |s|
  {
    hide Step, Said, Answers, WellFramed;
    if s == [] {
      SaidNothing(m.out);
    } else {
      var m' := Step(m, s[0]);
      EveryVerdictIsAnswered(m, s[0]);
      RunIsAnswered(m', s[1..]);
      var now, later := Answers(m, s[0]), AllAnswers(m', s[1..]);
      SaidConcat(now, later);
      assert m.out + Said(now) + Said(later) == m.out + (Said(now) + Said(later));
    }
  }

  /** From the start, whatever arrives, the receiver says well-framed replies only, one to a packet. */
  lemma {:induction false} EveryReplyIsWellFramed(start: int, mem: map<int, byte>, parms: Parms, s: seq<byte>)
    ensures var m := Init(start, mem, parms);
            && Run(m, s).out == Said(AllAnswers(m, s))
            && forall r :: r in AllAnswers(m, s) ==> WellFramed(r)
  {
    var m := Init(start, mem, parms);
    RunIsAnswered(m, s);
    hide Said, AllAnswers, Run, WellFramed;
    assert [] + Said(AllAnswers(m, s)) == Said(AllAnswers(m, s));
  }

  /** A length character that arrives as a control character takes back the packet accepted
      before it: the content survives exactly when that packet delivered nothing. */
  lemma {:induction false} DamagedLengthTakesBackLastPacket(m: Machine, start: int, ct: Content, n: nat, pkt: Packet, c: byte)
    requires m.phase == Wait && Checkpointed(m, start, ct, n) && Holds(m, start, After(ct, pkt))
    requires !Printable(c)
    ensures var m' := Run(m, [MARK, c]);
            && m'.phase == Wait && Holds(m', start, ct)
            && (Holds(m', start, After(ct, pkt)) <==>
                  After(ct, pkt).bytes == ct.bytes && After(ct, pkt).escape == ct.escape)
  {
    RunTwo(m, MARK, c);
    var m1 := Step(m, MARK);
    assert m1 == m.(phase := Length);
    assert Step(m1, c) == Reject(m1);
    var ct' := After(ct, pkt);
    assert |ct'.bytes| == |ct.bytes| ==> ct'.bytes == ct.bytes by {
      if pkt.kind == DATA {
        var d := Decode(ct.quote, ct.escape, pkt.payload);
        assert |d.bytes| == 0 ==> ct.bytes + d.bytes == ct.bytes;
      }
    }
  }
}

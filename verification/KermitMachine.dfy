/**
 The whole receiver as a machine over received characters: the framing automaton of
 KermitWire together with the state it drives, namely the memory being loaded, its
 checkpoint, the Send-Init parameters and the replies.
 */
module KermitMachine {
  import opened Bytes
  import opened KermitWire

  const SEND_DATA_SIZE := 20

  // ---------------------------------------------------------------- data sink

  /** Loaded memory, write address (os_data_addr) and pending quote (k_data_escape). */
  datatype Sink = Sink(mem: map<int, byte>, addr: int, escape: bool)

  function Put(s: Sink, b: byte): Sink {
    s.(mem := s.mem[s.addr := b], addr := s.addr + 1)
  }

  /** k_data_char */
  function DataChar(s: Sink, quote: byte, c: byte): Sink {
    if s.escape then Put(s, Ktrans(c)).(escape := false)
    else if c == quote then s.(escape := true)
    else Put(s, c)
  }

  // ---------------------------------------------------------------- Send-Init parameters

  datatype ParmBuffer = ParmBuffer(buf: seq<byte>, ptr: nat)

  /** send_parms and send_ptr; the pointer stays on one of the twenty bytes. */
  type Parms = p: ParmBuffer | |p.buf| == SEND_DATA_SIZE && p.ptr < SEND_DATA_SIZE
    witness ParmBuffer(seq(SEND_DATA_SIZE, _ => 0), 0)

  function PushParm(p: Parms, c: byte): Parms {
    ParmBuffer(p.buf[p.ptr := c], if p.ptr + 1 >= SEND_DATA_SIZE then p.ptr else p.ptr + 1)
  }

  /** What the other side asked for: his_eol, his_pad_count, his_pad_char, his_quote. */
  datatype Link = Link(eol: byte, padCount: nat, padChar: byte, quote: byte)

  const DEFAULT_LINK := Link(CR, 0, 0, HASH)

  /** How many parameter characters handle_send_packet looks at. */
  function ParmCount(p: Parms): nat {
    if p.ptr == SEND_DATA_SIZE - 1 then p.ptr - 1 else p.ptr
  }

  function Negotiated(p: Parms): Link {
    var k := ParmCount(p);
    Link(if k > 4 then UnToChar(p.buf[4]) else CR,
         if k > 2 then UnToChar(p.buf[2]) else 0,
         if k > 3 then Ktrans(p.buf[3]) else 0,
         if k > 5 then p.buf[5] else HASH)
  }

  // ---------------------------------------------------------------- replies

  /** The receiver's own parameters: MAXL TIME NPAD PADC EOL QCTL QBIN CHKT REPT CAPAS... */
  const OFFER: seq<byte> :=
    [ToChar(94), ToChar(1), ToChar(0), 0x40, ToChar(CR), HASH, 0x4E, 0x31, 0x4E,
     ToChar(2), ToChar(0), ToChar(94), ToChar(94)]

  /** CAPAS brings its three companions along. */
  function OfferTo(k: nat): seq<byte> {
    if k < 10 then OFFER[..k] else OFFER
  }

  /** The reply up to and including its block check. */
  function ReplyBody(n: int, kind: byte, data: seq<byte>): seq<byte> {
    var covered := [ToChar(|data| + 3), ToChar(n), kind] + data;
    [MARK] + covered + [Check(Sum(covered))]
  }

  function Padding(count: nat, c: byte): seq<byte> { seq(count, _ => c) }

  /** s1_sendpacket stops at a NUL, so an end-of-line of NUL is not sent. */
  function Transmitted(link: Link, body: seq<byte>): seq<byte> {
    Padding(link.padCount, link.padChar) + (body + if link.eol == 0 then [] else [link.eol])
  }

  // ---------------------------------------------------------------- the machine

  datatype Machine = Machine(
    phase: Phase,
    n: int,
    lastN: int,
    sink: Sink,
    savedAddr: int,
    savedEscape: bool,
    parms: Parms,
    link: Link,
    out: seq<byte>)

  function Init(start: int, mem: map<int, byte>, parms: Parms): Machine {
    Machine(Wait, 0, -1, Sink(mem, start, false), start, false, parms.(ptr := 0), DEFAULT_LINK, [])
  }

  function Reply(m: Machine, kind: byte, data: seq<byte>): Machine {
    m.(out := m.out + Transmitted(m.link, ReplyBody(m.n, kind, data)))
  }

  function Rollback(m: Machine): Machine {
    m.(sink := m.sink.(addr := m.savedAddr, escape := m.savedEscape))
  }

  /** A repeated sequence number restores the checkpoint, a new one takes it. */
  function Checkpoint(m: Machine): Machine {
    if m.n == m.lastN then Rollback(m)
    else m.(lastN := m.n, savedAddr := m.sink.addr, savedEscape := m.sink.escape)
  }

  function Take(m: Machine, kind: byte, c: byte): Machine {
    if kind == DATA then m.(sink := DataChar(m.sink, m.link.quote, c))
    else if kind == SEND then m.(parms := PushParm(m.parms, c))
    else m
  }

  /** Back to the top of the main loop. */
  function NextPacket(m: Machine): Machine {
    m.(phase := Wait, parms := m.parms.(ptr := 0))
  }

  function Reject(m: Machine): Machine {
    NextPacket(Reply(Rollback(m), NAK, []))
  }

  function Conclude(m: Machine, kind: byte): Machine {
    if kind == SEND then
      NextPacket(Reply(m.(link := Negotiated(m.parms)), ACK, OfferTo(ParmCount(m.parms))))
    else if kind == BREAK then
      Reply(m, ACK, []).(phase := Finished)
    else
      NextPacket(Reply(m, ACK, []))
  }

  function Step(m: Machine, c: byte): Machine {
    var p := Advance(m.phase, c);
    match p
    case Rejected => Reject(m)
    case Accepted(kind) => Conclude(m, kind)
    case _ =>
      match m.phase
      case Sequence(_, _) => Checkpoint(m.(phase := p, n := UnToChar(c)))
      case Body(_, kind, length) =>
        if length > 1 then Take(m.(phase := p), kind, c) else m.(phase := p)
      case _ => m.(phase := p)
  }

  function Run(m: Machine, s: seq<byte>): Machine
    decreases |s|
  {
    if s == [] then m else Run(Step(m, s[0]), s[1..])
  }

  lemma {:induction false} RunConcat(m: Machine, a: seq<byte>, b: seq<byte>)
    ensures Run(m, a + b) == Run(Run(m, a), b)
    decreases |a|
  {
    if a == [] {
      assert a + b == b;
    } else {
      assert (a + b)[1..] == a[1..] + b;
      RunConcat(Step(m, a[0]), a[1..], b);
    }
  }

  // ---------------------------------------------------------------- every reachable state

  /** What no character can break. */
  ghost predicate Sound(m: Machine) {
    && m.savedAddr <= m.sink.addr
    && !m.phase.Rejected? && !m.phase.Accepted?
  }

  ghost predicate AgreeBelow(a: map<int, byte>, b: map<int, byte>, limit: int) {
    forall x :: x < limit ==> (x in a <==> x in b) && (x in a ==> a[x] == b[x])
  }

  /** The checkpoint only moves up, and nothing below it is written, whatever arrives. */
  lemma {:induction false} RunKeepsCheckpointedMemory(m: Machine, s: seq<byte>)
    requires Sound(m)
    ensures Sound(Run(m, s))
    ensures m.savedAddr <= Run(m, s).savedAddr
    ensures AgreeBelow(m.sink.mem, Run(m, s).sink.mem, m.savedAddr)
    decreases |s|
  {
    if s != [] {
      StepKeepsCheckpointedMemory(m, s[0]);
      RunKeepsCheckpointedMemory(Step(m, s[0]), s[1..]);
    }
  }

  lemma {:induction false} StepKeepsCheckpointedMemory(m: Machine, c: byte)
    requires Sound(m)
    ensures Sound(Step(m, c))
    ensures m.savedAddr <= Step(m, c).savedAddr
    ensures AgreeBelow(m.sink.mem, Step(m, c).sink.mem, m.savedAddr)
  {
  }
}

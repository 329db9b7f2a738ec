/**
 The character level of the Kermit receiver: printable encoding, control quoting, the
 type-1 block check, and the framing automaton that k_recv walks through for one packet.
 The encoders at the end are the sending side, written from the "Packet Format" and
 "Encoding, Prefixing, Block Check" sections of the Kermit Protocol Manual, 6th edition.
 */
module KermitWire {
  import opened Bytes

  const MARK: byte := 0x01   // START_CHAR
  const ETX: byte := 0x03
  const CR: byte := 0x0D     // END_CHAR
  const SPACE: byte := 0x20
  const HASH: byte := 0x23   // K_ESCAPE
  const SEND: byte := 0x53   // 'S'
  const DATA: byte := 0x44   // 'D'
  const ACK: byte := 0x59    // 'Y'
  const NAK: byte := 0x4E    // 'N'
  const BREAK: byte := 0x42  // 'B'

  function ToChar(x: int): byte { (x + 32) % 256 }

  function UnToChar(c: byte): int { (c - 32) % 256 }

  /** (c & 0xE0) != 0 */
  predicate Printable(c: byte) { c >= 32 }

  ghost predicate AllPrintable(s: seq<byte>) {
    forall i :: 0 <= i < |s| ==> Printable(s[i])
  }

  /** The single-character type-1 block check of a character sum. */
  function Check(sum: nat): byte { ToChar((sum + sum / 64 % 4) % 64) }

  lemma {:induction false} CheckIsPrintable(sum: nat)
    ensures 32 <= Check(sum) < 96
  {
  }

  lemma {:induction false} UnToCharOfToChar(x: nat)
    requires x < 224
    ensures UnToChar(ToChar(x)) == x && Printable(ToChar(x))
  {
  }

  /** Undo control quoting: (c & 0x60) == 0x40, then (c & 0x7f) == 0x3f, else unchanged. */
  function Ktrans(c: byte): byte {
    if c / 32 % 4 == 2 then c - 64
    else if c % 128 == 0x3f then c + 64
    else c
  }

  // ---------------------------------------------------------------- framing automaton

  /** Where the receiver is inside a packet, with the locals that are live there. */
  datatype Phase =
    | Wait
    | Length
    | Sequence(sum: nat, length: int)
    | Kind(sum: nat, length: int)
    | LengthHigh(sum: nat, kind: byte)
    | LengthLow(sum: nat, kind: byte, high: int)
    | HeaderCheck(sum: nat, kind: byte, length: int)
    | Body(sum: nat, kind: byte, length: int)
    | Terminator(kind: byte)
    | Rejected
    | Accepted(kind: byte)
    | Interrupted
    | Finished

  /** One received character; Rejected is the packet_error label. */
  function Advance(p: Phase, c: byte): Phase {
    match p
    case Wait => if c == MARK then Length else if c == ETX then Interrupted else Wait
    case Length => if Printable(c) then Sequence(c, UnToChar(c)) else Rejected
    case Sequence(sum, length) => if Printable(c) then Kind(sum + c, length - 1) else Rejected
    case Kind(sum, length) =>
      if !Printable(c) then Rejected
      else if length - 1 == -2 then LengthHigh(sum + c, c)
      else Body(sum + c, c, length - 1)
    case LengthHigh(sum, kind) =>
      if Printable(c) then LengthLow(sum + c, kind, UnToChar(c)) else Rejected
    case LengthLow(sum, kind, high) =>
      if Printable(c) then HeaderCheck(sum + c, kind, high * 95 + UnToChar(c)) else Rejected
    case HeaderCheck(sum, kind, length) =>
      if Printable(c) && c == Check(sum) then Body(sum + c, kind, length) else Rejected
    case Body(sum, kind, length) =>
      if !Printable(c) then Rejected
      else if length > 1 then Body(sum + c, kind, length - 1)
      else if c == Check(sum) then Terminator(kind) else Rejected
    case Terminator(kind) => if c == CR then Accepted(kind) else Rejected
    case _ => p
  }

  /** Between the sequence character and the verdict. */
  predicate InPacket(p: Phase) {
    p.Kind? || p.LengthHigh? || p.LengthLow? || p.HeaderCheck? || p.Body? || p.Terminator?
  }

  /** The automaton rejects exactly at the last character of s. */
  predicate RejectsAtEnd(p: Phase, s: seq<byte>)
    decreases |s|
  {
    s != [] &&
    if |s| == 1 then Advance(p, s[0]).Rejected?
    else InPacket(Advance(p, s[0])) && RejectsAtEnd(Advance(p, s[0]), s[1..])
  }

  /** Characters the receiver skips while it waits for a packet. */
  ghost predicate Quiet(s: seq<byte>) {
    forall i :: 0 <= i < |s| ==> s[i] != MARK && s[i] != ETX
  }

  // ---------------------------------------------------------------- sending side

  function QuoteByte(quote: byte, b: byte): (s: seq<byte>)
    ensures 32 <= quote < 127 ==> AllPrintable(s)
  {
    if b % 128 < 32 then [quote, b + 64]
    else if b % 128 == 127 then [quote, b - 64]
    else if b % 128 == quote then [quote, b]
    else [b]
  }

  function QuoteAll(quote: byte, s: seq<byte>): (r: seq<byte>)
    ensures 32 <= quote < 127 ==> AllPrintable(r)
  {
    if s == [] then [] else QuoteByte(quote, s[0]) + QuoteAll(quote, s[1..])
  }

  datatype Packet = Packet(kind: byte, payload: seq<byte>)

  /** The characters from LEN to the last one covered by the block check. */
  function Covered(n: nat, pkt: Packet, long: bool): (s: seq<byte>)
    requires n < 64
  {
    if long then
      var len := |pkt.payload| + 1;
      var head := [SPACE, ToChar(n), pkt.kind, ToChar(len / 95), ToChar(len % 95)];
      head + [Check(Sum(head))] + pkt.payload
    else
      [ToChar(|pkt.payload| + 3), ToChar(n), pkt.kind] + pkt.payload
  }

  function Frame(n: nat, pkt: Packet, long: bool): (s: seq<byte>)
    requires n < 64
  {
    var covered := Covered(n, pkt, long);
    [MARK] + covered + [Check(Sum(covered)), CR]
  }

  /** A packet that fits the chosen header and holds only transmittable characters. */
  ghost predicate Sendable(pkt: Packet, long: bool) {
    && Printable(pkt.kind)
    && AllPrintable(pkt.payload)
    && (if long then |pkt.payload| + 1 <= 94 * 95 + 94 else |pkt.payload| + 3 <= 94)
  }
}

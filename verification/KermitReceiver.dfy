/**
 k_recv and its helpers as the imperative code they are: static buffers, the write address
 with its saved copy, and the main loop over getc. Proved to be the machine of
 KermitMachine, character by character.
 */
module KermitReceiver {
  import opened Bytes
  import opened KermitWire
  import opened KermitMachine
  import opened KermitSession

  /** A character from the line, or nothing more to come (getc would wait for ever). */
  datatype Got = Char(c: byte) | Silence {
    predicate IsFailure() { Silence? }
    function PropagateFailure(): Outcome
      requires Silence?
    { Blocked }
    function Extract(): byte
      requires Char?
    { c }
  }

  /** How a packet, or the whole call, came out. */
  datatype Outcome = Blocked | Cancelled | Again | Complete | Proceed

  class Receiver {
    const input: seq<byte>
    var pos: nat
    var out: seq<byte>

    var mem: map<int, byte>
    var dataAddr: int
    var dataAddrSaved: int
    var escape: bool
    var escapeSaved: bool

    const sendParms: array<byte>
    var sendPtr: nat
    const replyBuf: array<byte>

    var hisEol: byte
    var hisPadCount: nat
    var hisPadChar: byte
    var hisQuote: byte

    // n and last_n, which k_recv keeps from packet to packet
    var n: int
    var lastN: int

    constructor (input: seq<byte>, mem: map<int, byte>)
      ensures Valid() && this.input == input && pos == 0 && out == [] && this.mem == mem
      ensures fresh(sendParms) && fresh(replyBuf)
    {
      this.input := input;
      this.mem := mem;
      pos, out := 0, [];
      dataAddr, dataAddrSaved, escape, escapeSaved := 0, 0, false, false;
      sendParms := new byte[20](_ => 0);
      sendPtr := 0;
      replyBuf := new byte[24](_ => 0);
      hisEol, hisPadCount, hisPadChar, hisQuote := CR, 0, 0, HASH;
      n, lastN := 0, -1;
    }

    ghost predicate Valid()
      reads this
    {
      && sendParms.Length == SEND_DATA_SIZE && replyBuf.Length == 24
      && sendParms != replyBuf
      && sendPtr < SEND_DATA_SIZE && pos <= |input|
      && 0 <= n < 224
    }

    ghost function HisLink(): Link
      reads this
    {
      Link(hisEol, hisPadCount, hisPadChar, hisQuote)
    }

    ghost function ParmView(): Parms
      requires Valid()
      reads this, sendParms
    {
      ParmBuffer(sendParms[..], sendPtr)
    }

    /** The machine state these fields stand for, in phase p of a packet. */
    ghost function View(p: Phase): Machine
      requires Valid()
      reads this, sendParms
    {
      Machine(p, n, lastN, Sink(mem, dataAddr, escape), dataAddrSaved, escapeSaved,
              ParmView(), HisLink(), out)
    }

    // -------------------------------------------------------------- data handling

    method KDataSave()
      requires Valid()
      modifies this`dataAddrSaved, this`escapeSaved
      ensures Valid() && dataAddrSaved == dataAddr && escapeSaved == escape
    {
      escapeSaved := escape;
      dataAddrSaved := dataAddr;
    }

    method KDataRestore()
      requires Valid()
      modifies this`dataAddr, this`escape
      ensures Valid() && dataAddr == dataAddrSaved && escape == escapeSaved
    {
      escape := escapeSaved;
      dataAddr := dataAddrSaved;
    }

    method KDataChar(c: byte)
      requires Valid()
      modifies this`mem, this`dataAddr, this`escape
      ensures Valid()
      ensures Sink(mem, dataAddr, escape) == DataChar(old(Sink(mem, dataAddr, escape)), hisQuote, c)
    {
      if escape {
        mem, dataAddr := mem[dataAddr := Ktrans(c)], dataAddr + 1;
        escape := false;
      } else if c == hisQuote {
        escape := true;
      } else {
        mem, dataAddr := mem[dataAddr := c], dataAddr + 1;
      }
    }

    // -------------------------------------------------------------- replies

    /** chk1: the block check over a NUL-terminated stretch of the reply buffer. */
    method Chk1(from: nat, ghost end: nat) returns (r: int)
      requires Valid() && from <= end < 24
      requires replyBuf[end] == 0 && forall i :: from <= i < end ==> replyBuf[i] != 0
      ensures ToChar(r) == Check(Sum(replyBuf[from..end]))
    {
      var total: int, i := 0, from;
      while replyBuf[i] != 0
        invariant from <= i <= end && total == Sum(replyBuf[from..i])
        decreases end - i
      {
        SumAppend(replyBuf[from..i], replyBuf[i]);
        assert replyBuf[from..i] + [replyBuf[i]] == replyBuf[from..i + 1];
        total := total + replyBuf[i];
        i := i + 1;
      }
      r := (total + total / 64 % 4) % 64;
    }

    /** s1_sendpacket: padding, then the buffer up to its NUL. */
    method SendPacket(ghost end: nat)
      requires Valid() && end < 24
      requires replyBuf[end] == 0 && forall i :: 0 <= i < end ==> replyBuf[i] != 0
      modifies this`out
      ensures Valid()
      ensures out == old(out) + (Padding(hisPadCount, hisPadChar) + replyBuf[..end])
    {
      var count := hisPadCount;
      while count > 0
        invariant 0 <= count <= hisPadCount
        invariant out == old(out) + Padding(hisPadCount - count, hisPadChar)
      {
        assert Padding(hisPadCount - count, hisPadChar) + [hisPadChar]
            == Padding(hisPadCount - count + 1, hisPadChar);
        out := out + [hisPadChar];
        count := count - 1;
      }
      ghost var start := out;
      var i := 0;
      while replyBuf[i] != 0
        invariant 0 <= i <= end && out == start + replyBuf[..i]
        decreases end - i
      {
        out := out + [replyBuf[i]];
        i := i + 1;
      }
    }

    /** The common end of send_ack, send_nack and handle_send_packet: header, block check,
        terminator and NUL around the data already in the buffer. The last index written
        shows that every reply stays inside the 24 bytes. */
    method SealAndSend(kind: byte, length: nat)
      requires Valid() && 3 <= length <= 16 && kind != 0
      requires forall i :: 4 <= i <= length ==> replyBuf[i] != 0
      modifies replyBuf, this`out
      ensures Valid()
      ensures out == old(out) + Transmitted(HisLink(), ReplyBody(n, kind, old(replyBuf[4..length + 1])))
    {
      ghost var data := replyBuf[4..length + 1];
      ghost var covered := [ToChar(|data| + 3), ToChar(n), kind] + data;
      FillReply(kind, length);
      ghost var filled := replyBuf[..];
      var check := Chk1(1, length + 1);
      CheckIsPrintable(Sum(covered));
      hide Check, Sum, ToChar, Transmitted;
      replyBuf[length + 1] := ToChar(check);
      replyBuf[length + 2] := hisEol;
      replyBuf[length + 3] := 0;
      BufferIsReply(filled, replyBuf[..], length, covered, Check(Sum(covered)));
      SendPacket(if hisEol == 0 then length + 2 else length + 3);
      TransmittedIs(HisLink(), [MARK] + covered + [Check(Sum(covered))]);
    }

    /** Header in front of the data, NUL behind it. */
    method FillReply(kind: byte, length: nat)
      requires Valid() && 3 <= length <= 16 && kind != 0
      requires forall i :: 4 <= i <= length ==> replyBuf[i] != 0
      modifies replyBuf
      ensures var data := old(replyBuf[4..length + 1]);
              && replyBuf[0] == MARK && replyBuf[length + 1] == 0
              && replyBuf[1..length + 1] == [ToChar(|data| + 3), ToChar(n), kind] + data
      ensures forall i :: 0 <= i <= length ==> replyBuf[i] != 0
    {
      replyBuf[0] := MARK;
      replyBuf[1] := ToChar(length);
      replyBuf[2] := ToChar(n);
      replyBuf[3] := kind;
      replyBuf[length + 1] := 0;
    }

    method SendAck()
      requires Valid()
      modifies replyBuf, this`out
      ensures Valid() && out == old(out) + Transmitted(HisLink(), ReplyBody(n, ACK, []))
    {
      assert replyBuf[4..4] == [];
      SealAndSend(ACK, 3);
    }

    method SendNack()
      requires Valid()
      modifies replyBuf, this`out
      ensures Valid() && out == old(out) + Transmitted(HisLink(), ReplyBody(n, NAK, []))
    {
      assert replyBuf[4..4] == [];
      SealAndSend(NAK, 3);
    }

    /** a_b[++length] = c, with c the next of the receiver's own parameters. */
    method Answer(length: nat, c: byte) returns (next: nat)
      requires Valid() && 3 <= length < 16
      requires replyBuf[4..length + 1] == OFFER[..length - 3] && c == OFFER[length - 3]
      modifies replyBuf
      ensures next == length + 1 && replyBuf[4..next + 1] == OFFER[..next - 3]
    {
      next := length + 1;
      replyBuf[next] := c;
      assert replyBuf[4..next + 1] == OFFER[..length - 3] + [c];
    }

    /** The do-while(0) of handle_send_packet, up to QCTL: four parameters are remembered. */
    method AnswerRemembered(bytes: nat) returns (length: nat)
      requires Valid() && bytes <= 18
      modifies replyBuf, this`hisEol, this`hisPadCount, this`hisPadChar, this`hisQuote
      ensures Valid()
      ensures hisEol == (if bytes > 4 then UnToChar(sendParms[4]) else CR)
      ensures hisPadCount == (if bytes > 2 then UnToChar(sendParms[2]) else 0)
      ensures hisPadChar == (if bytes > 3 then Ktrans(sendParms[3]) else 0)
      ensures hisQuote == (if bytes > 5 then sendParms[5] else HASH)
      ensures length == 3 + (if bytes < 6 then bytes else 6) && replyBuf[4..length + 1] == OFFER[..length - 3]
    {
      OfferItems();
      hide OFFER, ToChar, Ktrans;
      length := 3;
      assert replyBuf[4..4] == OFFER[..0];
      hisEol, hisPadCount, hisPadChar, hisQuote := CR, 0, 0, HASH;
      if bytes <= 0 { return; }
      length := Answer(length, ToChar(94));    // MAXL
      if bytes <= 1 { return; }
      length := Answer(length, ToChar(1));     // TIME
      if bytes <= 2 { return; }
      hisPadCount := UnToChar(sendParms[2]);
      length := Answer(length, ToChar(0));     // NPAD
      if bytes <= 3 { return; }
      hisPadChar := Ktrans(sendParms[3]);
      length := Answer(length, 0x40);          // PADC
      if bytes <= 4 { return; }
      hisEol := UnToChar(sendParms[4]);
      length := Answer(length, ToChar(CR));    // EOL
      if bytes <= 5 { return; }
      hisQuote := sendParms[5];
      length := Answer(length, HASH);          // QCTL
    }

    /** The rest of that block, from QBIN to CAPAS and its companions. */
    method AnswerRefused(bytes: nat, sofar: nat) returns (length: nat)
      requires Valid() && sofar == 3 + (if bytes < 6 then bytes else 6)
      requires replyBuf[4..sofar + 1] == OFFER[..sofar - 3]
      modifies replyBuf
      ensures 3 <= length <= 16 && replyBuf[4..length + 1] == OfferTo(bytes)
    {
      length := sofar;
      if bytes <= 6 { return; }
      length := Answer(length, 0x4E);          // QBIN
      if bytes <= 7 { return; }
      length := Answer(length, 0x31);          // CHKT
      if bytes <= 8 { return; }
      length := Answer(length, 0x4E);          // REPT
      if bytes <= 9 { return; }
      length := Answer(length, ToChar(2));     // CAPAS
      length := Answer(length, ToChar(0));
      length := Answer(length, ToChar(94));
      length := Answer(length, ToChar(94));
      assert OFFER[..13] == OFFER;
    }

    method HandleSendPacket()
      requires Valid()
      modifies replyBuf, this`out, this`hisEol, this`hisPadCount, this`hisPadChar, this`hisQuote, this`sendPtr
      ensures Valid()
      ensures HisLink() == Negotiated(old(ParmView()))
      ensures out == old(out) + Transmitted(HisLink(), ReplyBody(n, ACK, OfferTo(ParmCount(old(ParmView())))))
    {
      ghost var parms := ParmView();
      if sendPtr == SEND_DATA_SIZE - 1 {
        sendPtr := sendPtr - 1;
      }
      var length := AnswerRemembered(sendPtr);
      assert HisLink() == Negotiated(parms);
      length := AnswerRefused(sendPtr, length);
      forall i | 4 <= i <= length ensures replyBuf[i] != 0 {
        assert replyBuf[i] == replyBuf[4..length + 1][i - 4];
      }
      SealAndSend(ACK, length);
    }

    // -------------------------------------------------------------- one packet

    method Getc() returns (g: Got)
      requires Valid()
      modifies this`pos
      ensures Valid()
      ensures if old(pos) < |input| then g == Char(input[old(pos)]) && pos == old(pos) + 1
              else g == Silence && pos == old(pos)
    {
      if pos < |input| {
        g, pos := Char(input[pos]), pos + 1;
      } else {
        g := Silence;
      }
    }

    /** The packet_error label. */
    method PacketError(ghost p: Phase)
      requires Valid()
      modifies this`dataAddr, this`escape, this`out, replyBuf
      ensures Valid() && NextPacket(View(Wait)) == Reject(old(View(p)))
    {
      KDataRestore();
      SendNack();
    }

    /** m is where the machine is after the characters consumed; next is the phase in which
        the caller carries on. */
    ghost predicate At(m: Machine, r: Outcome, next: Phase)
      requires Valid()
      reads this, sendParms
    {
      match r
      case Blocked => pos == |input| && !m.phase.Finished? && !m.phase.Interrupted?
      case Cancelled => m.phase == Interrupted
      case Again => m == NextPacket(View(Wait))
      case Complete => m == View(Finished)
      case Proceed => m == View(next)
    }

    method AwaitMark() returns (r: Outcome)
      requires Valid()
      modifies this`pos
      ensures Valid() && old(pos) <= pos && (r.Blocked? || r.Cancelled? || r.Proceed?)
      ensures r.Proceed? ==> old(pos) < pos
      ensures At(Run(old(View(Wait)), input[old(pos)..pos]), r, Length)
    {
      ghost var m0, p0 := View(Wait), pos;
      var c :- Getc();
      RunOne(m0, input, p0);
      while c != MARK && c != ETX
        invariant Valid() && p0 < pos && View(Wait) == m0
        invariant Run(m0, input[p0..pos]) == Step(m0, c)
        decreases |input| - pos
      {
        ghost var p := pos;
        c :- Getc();
        RunMore(m0, input, p0, p);
      }
      r := if c == ETX then Cancelled else Proceed;
    }

    method ReadLength() returns (r: Outcome, sum: nat, length: int)
      requires Valid()
      modifies this`pos, this`dataAddr, this`escape, this`out, replyBuf
      ensures Valid() && old(pos) <= pos && (r.Blocked? || r.Again? || r.Proceed?)
      ensures At(Run(old(View(Length)), input[old(pos)..pos]), r, Sequence(sum, length))
    {
      ghost var m0, p0 := View(Length), pos;
      sum, length := 0, 0;
      var c :- Getc();
      RunOne(m0, input, p0);
      if !Printable(c) {
        PacketError(Length);
        return Again, 0, 0;
      }
      r, sum, length := Proceed, c, UnToChar(c);
    }

    /** The sequence number, then checkpoint or restore. */
    method ReadSequence(sum0: nat, length0: int) returns (r: Outcome, sum: nat, length: int)
      requires Valid()
      modifies this`pos, this`n, this`lastN, this`dataAddr, this`escape, this`dataAddrSaved, this`escapeSaved
      modifies this`out, replyBuf
      ensures Valid() && old(pos) <= pos && (r.Blocked? || r.Again? || r.Proceed?)
      ensures At(Run(old(View(Sequence(sum0, length0))), input[old(pos)..pos]), r, Kind(sum, length))
    {
      hide Run, Step, Reject;
      ghost var m0, p0 := View(Sequence(sum0, length0)), pos;
      NothingRead(m0, input, p0);
      sum, length := 0, 0;
      var c :- Getc();
      RunOne(m0, input, p0);
      StepAtSequence(m0, c);
      if !Printable(c) {
        PacketError(Sequence(sum0, length0));
        return Again, 0, 0;
      }
      r, sum, n, length := Proceed, sum0 + c, UnToChar(c), length0 - 1;
      hide Checkpoint;
      TakeCheckpoint(Kind(sum, length));
    }

    /** A repeated sequence number restores, a new one saves. */
    method TakeCheckpoint(ghost p: Phase)
      requires Valid()
      modifies this`lastN, this`dataAddr, this`escape, this`dataAddrSaved, this`escapeSaved
      ensures Valid() && View(p) == Checkpoint(old(View(p)))
    {
      ghost var parms, link := ParmView(), HisLink();
      if n == lastN {
        KDataRestore();
      } else {
        lastN := n;
        KDataSave();
      }
      assert ParmView() == parms && HisLink() == link;
    }

    method ReadKind(sum0: nat, length0: int) returns (r: Outcome, kind: byte, sum: nat, length: int)
      requires Valid()
      modifies this`pos, this`dataAddr, this`escape, this`out, replyBuf
      ensures Valid() && old(pos) <= pos && (r.Blocked? || r.Again? || r.Proceed?)
      ensures At(Run(old(View(Kind(sum0, length0))), input[old(pos)..pos]), r,
                 if length == -2 then LengthHigh(sum, kind) else Body(sum, kind, length))
    {
      ghost var m0, p0 := View(Kind(sum0, length0)), pos;
      kind, sum, length := 0, 0, 0;
      var c :- Getc();
      RunOne(m0, input, p0);
      if !Printable(c) {
        PacketError(Kind(sum0, length0));
        return Again, 0, 0, 0;
      }
      r, kind, sum, length := Proceed, c, sum0 + c, length0 - 1;
    }

    /** The two characters of an extended length. */
    method ReadLongLength(sum0: nat, kind: byte) returns (r: Outcome, sum: nat, length: int)
      requires Valid()
      modifies this`pos, this`dataAddr, this`escape, this`out, replyBuf
      ensures Valid() && old(pos) <= pos && (r.Blocked? || r.Again? || r.Proceed?)
      ensures At(Run(old(View(LengthHigh(sum0, kind))), input[old(pos)..pos]), r, HeaderCheck(sum, kind, length))
    {
      hide Run, Step, Reject;
      ghost var m0, p0 := View(LengthHigh(sum0, kind)), pos;
      NothingRead(m0, input, p0);
      sum, length := 0, 0;
      var c :- Getc();
      RunOne(m0, input, p0);
      StepAtLengthHigh(m0, c);
      if !Printable(c) {
        PacketError(LengthHigh(sum0, kind));
        return Again, 0, 0;
      }
      sum := sum0 + c;
      var lenHi := UnToChar(c);
      ghost var m1 := View(LengthLow(sum, kind, lenHi));
      c :- Getc();
      RunMore(m0, input, p0, p0 + 1);
      StepAtLengthLow(m1, c);
      if !Printable(c) {
        PacketError(LengthLow(sum, kind, lenHi));
        return Again, 0, 0;
      }
      sum := sum + c;
      var lenLo := UnToChar(c);
      length := lenHi * 95 + lenLo;
      r := Proceed;
    }

    method ReadHeaderCheck(sum0: nat, kind: byte, length: int) returns (r: Outcome, sum: nat)
      requires Valid()
      modifies this`pos, this`dataAddr, this`escape, this`out, replyBuf
      ensures Valid() && old(pos) <= pos && (r.Blocked? || r.Again? || r.Proceed?)
      ensures At(Run(old(View(HeaderCheck(sum0, kind, length))), input[old(pos)..pos]), r, Body(sum, kind, length))
    {
      ghost var m0, p0 := View(HeaderCheck(sum0, kind, length)), pos;
      sum := 0;
      var c :- Getc();
      RunOne(m0, input, p0);
      if !Printable(c) || c != Check(sum0) {
        PacketError(HeaderCheck(sum0, kind, length));
        return Again, 0;
      }
      r, sum := Proceed, sum0 + c;
    }

    /** What the receiver does with one character of a packet body. */
    method TakeChar(kind: byte, c: byte, ghost p: Phase)
      requires Valid()
      modifies this`mem, this`dataAddr, this`escape, sendParms, this`sendPtr
      ensures Valid() && View(p) == Take(old(View(p)), kind, c)
    {
      if kind == DATA {
        KDataChar(c);
      } else if kind == SEND {
        sendParms[sendPtr] := c;
        sendPtr := sendPtr + 1;
        if sendPtr >= SEND_DATA_SIZE {
          sendPtr := sendPtr - 1;
        }
      }
    }

    /** One turn of the loop that brings in the packet body. */
    method ReadDataChar(sum0: nat, kind: byte, length: int) returns (r: Outcome, sum: nat)
      requires Valid() && length > 1
      modifies this`pos, this`mem, this`dataAddr, this`escape, this`out, replyBuf, sendParms, this`sendPtr
      ensures Valid() && old(pos) <= pos && (r.Blocked? || r.Again? || r.Proceed?)
      ensures At(Run(old(View(Body(sum0, kind, length))), input[old(pos)..pos]), r, Body(sum, kind, length - 1))
    {
      ghost var m0, p0 := View(Body(sum0, kind, length)), pos;
      sum := 0;
      var c :- Getc();
      RunOne(m0, input, p0);
      if !Printable(c) {
        PacketError(Body(sum0, kind, length));
        return Again, 0;
      }
      sum := sum0 + c;
      TakeChar(kind, c, Body(sum, kind, length - 1));
      r := Proceed;
    }

    method ReadData(sum0: nat, kind: byte, length0: int) returns (r: Outcome, sum: nat, length: int)
      requires Valid()
      modifies this`pos, this`mem, this`dataAddr, this`escape, this`out, replyBuf, sendParms, this`sendPtr
      ensures Valid() && old(pos) <= pos && (r.Blocked? || r.Again? || r.Proceed?)
      ensures r.Proceed? ==> length <= 1
      ensures At(Run(old(View(Body(sum0, kind, length0))), input[old(pos)..pos]), r, Body(sum, kind, length))
    {
      ghost var m0, p0 := View(Body(sum0, kind, length0)), pos;
      sum, length, r := sum0, length0, Proceed;
      assert Run(m0, input[p0..p0]) == m0;
      hide Run, NextPacket, View;
      while length > 1
        invariant Valid() && p0 <= pos && r.Proceed?
        invariant Run(m0, input[p0..pos]) == View(Body(sum, kind, length))
      {
        ghost var p, m := pos, View(Body(sum, kind, length));
        r, sum := ReadDataChar(sum, kind, length);
        RunJoin(m0, m, input, p0, p, pos);
        if !r.Proceed? { return; }
        length := length - 1;
      }
    }

    /** The reply to an accepted packet. */
    method AcceptPacket(kind: byte, ghost p: Phase) returns (r: Outcome)
      requires Valid()
      modifies this`out, replyBuf, this`sendPtr, this`hisEol, this`hisPadCount, this`hisPadChar, this`hisQuote
      ensures Valid() && (r.Again? || r.Complete?) && At(Conclude(old(View(p)), kind), r, Wait)
    {
      if kind == SEND {
        HandleSendPacket();
        r := Again;
      } else {
        SendAck();
        r := if kind == BREAK then Complete else Again;
      }
    }

    method ReadCheck(sum: nat, kind: byte, length: int) returns (r: Outcome)
      requires Valid() && length <= 1
      modifies this`pos, this`dataAddr, this`escape, this`out, replyBuf
      ensures Valid() && old(pos) <= pos && (r.Blocked? || r.Again? || r.Proceed?)
      ensures At(Run(old(View(Body(sum, kind, length))), input[old(pos)..pos]), r, Terminator(kind))
    {
      ghost var m0, p0 := View(Body(sum, kind, length)), pos;
      var c :- Getc();
      RunOne(m0, input, p0);
      if !Printable(c) || c != Check(sum) {
        PacketError(Body(sum, kind, length));
        return Again;
      }
      r := Proceed;
    }

    method ReadTerminator(kind: byte) returns (r: Outcome)
      requires Valid()
      modifies this`pos, this`dataAddr, this`escape, this`out, replyBuf, this`sendPtr
      modifies this`hisEol, this`hisPadCount, this`hisPadChar, this`hisQuote
      ensures Valid() && old(pos) <= pos && (r.Blocked? || r.Again? || r.Complete?)
      ensures At(Run(old(View(Terminator(kind))), input[old(pos)..pos]), r, Wait)
    {
      ghost var m0, p0 := View(Terminator(kind)), pos;
      var c :- Getc();
      RunOne(m0, input, p0);
      if c != CR {
        PacketError(Terminator(kind));
        r := Again;
      } else {
        r := AcceptPacket(kind, Terminator(kind));
      }
    }

    /** Everything from MARK to the start of the packet body. */
    method ReadHeader() returns (r: Outcome, kind: byte, sum: nat, length: int)
      requires Valid()
      modifies this`pos, this`n, this`lastN, this`dataAddr, this`escape, this`dataAddrSaved, this`escapeSaved
      modifies this`out, replyBuf
      ensures Valid() && old(pos) <= pos && !r.Complete? && (r.Again? ==> old(pos) < pos)
      ensures At(Run(old(View(Wait)), input[old(pos)..pos]), r, Body(sum, kind, length))
    {
      hide Run, NextPacket, View;
      kind, sum, length := 0, 0, 0;
      ghost var m0, p0 := View(Wait), pos;
      r := AwaitMark();
      if !r.Proceed? { return; }
      ghost var p1, m1 := pos, View(Length);
      r, sum, length := ReadLength();
      RunJoin(m0, m1, input, p0, p1, pos);
      if !r.Proceed? { return; }
      p1, m1 := pos, View(Sequence(sum, length));
      r, sum, length := ReadSequence(sum, length);
      RunJoin(m0, m1, input, p0, p1, pos);
      if !r.Proceed? { return; }
      p1, m1 := pos, View(Kind(sum, length));
      r, kind, sum, length := ReadKind(sum, length);
      RunJoin(m0, m1, input, p0, p1, pos);
      if !r.Proceed? || length != -2 { return; }
      p1, m1 := pos, View(LengthHigh(sum, kind));
      r, sum, length := ReadLongLength(sum, kind);
      RunJoin(m0, m1, input, p0, p1, pos);
      if !r.Proceed? { return; }
      p1, m1 := pos, View(HeaderCheck(sum, kind, length));
      r, sum := ReadHeaderCheck(sum, kind, length);
      RunJoin(m0, m1, input, p0, p1, pos);
    }

    /** One turn of the main loop. */
    method ReceivePacket() returns (r: Outcome)
      requires Valid()
      modifies this, sendParms, replyBuf
      ensures Valid() && old(pos) <= pos && !r.Proceed? && (r.Again? ==> old(pos) < pos)
      ensures At(Run(NextPacket(old(View(Wait))), input[old(pos)..pos]), r, Wait)
    {
      sendPtr := 0;
      ghost var m0, p0 := View(Wait), pos;
      assert m0 == NextPacket(old(View(Wait)));
      hide Run, NextPacket, View;
      var kind, sum, length;
      r, kind, sum, length := ReadHeader();
      if !r.Proceed? { return; }
      ghost var p1, m1 := pos, View(Body(sum, kind, length));
      r, sum, length := ReadData(sum, kind, length);
      RunJoin(m0, m1, input, p0, p1, pos);
      if !r.Proceed? { return; }
      p1, m1 := pos, View(Body(sum, kind, length));
      r := ReadCheck(sum, kind, length);
      RunJoin(m0, m1, input, p0, p1, pos);
      if !r.Proceed? { return; }
      p1, m1 := pos, View(Terminator(kind));
      r := ReadTerminator(kind);
      RunJoin(m0, m1, input, p0, p1, pos);
    }

    /** The initialisation part of k_recv. */
    method StartReceiving(start: int)
      requires Valid() && out == []
      modifies this`hisEol, this`hisPadCount, this`hisPadChar, this`hisQuote, this`n, this`lastN
      modifies this`dataAddr, this`escape, this`dataAddrSaved, this`escapeSaved
      ensures Valid() && NextPacket(View(Wait)) == Init(start, mem, ParmView())
    {
      hide ToChar, UnToChar, Ktrans, OFFER;
      ghost var parms := ParmView();
      hisEol, hisPadCount, hisPadChar, hisQuote := CR, 0, 0, HASH;
      escape, dataAddr := false, start;
      KDataSave();
      n, lastN := 0, -1;
      assert HisLink() == DEFAULT_LINK && ParmView() == parms;
      assert View(Wait).sink == Sink(mem, start, false);
    }

    /** k_recv, loading at start: the size received, 0 after ^C, or no return at all. */
    method KRecv(start: int) returns (r: Outcome, size: int)
      requires Valid() && pos == 0 && out == []
      modifies this, sendParms, replyBuf
      ensures Valid()
      ensures var m := Run(Init(start, old(mem), old(ParmView())), input[..pos]);
              match r
              case Complete => m == View(Finished) && size == m.sink.addr - start
              case Cancelled => m.phase == Interrupted && size == 0
              case Blocked => pos == |input| && !m.phase.Finished? && !m.phase.Interrupted?
              case _ => false
    {
      StartReceiving(start);
      ghost var m0 := Init(start, mem, ParmView());
      assert Run(m0, input[..0]) == m0;
      r := Again;
      while r.Again?
        invariant Valid() && !r.Proceed?
        invariant r.Again? ==> Run(m0, input[..pos]) == NextPacket(View(Wait))
        invariant !r.Again? ==> At(Run(m0, input[..pos]), r, Wait)
        decreases r.Again?, |input| - pos
      {
        hide Run, NextPacket, View;
        ghost var p, m := pos, NextPacket(View(Wait));
        assert input[..p] == input[0..p];
        r := ReceivePacket();
        RunJoin(m0, m, input, 0, p, pos);
        assert input[..pos] == input[0..pos];
      }
      size := if r.Complete? then dataAddr - start else 0;
    }

    /** load_serial_bin: whatever arrives, it ends as k_recv does; a valid session leaves its file in memory. */
    method LoadSerialBin(offset: int) returns (r: Outcome, filesize: int)
      requires Valid() && pos == 0 && out == []
      modifies this, sendParms, replyBuf
      ensures r.Complete? || r.Cancelled? || (r.Blocked? && pos == |input|)
      ensures r.Complete? ==> filesize == dataAddr - offset >= 0 && AgreeBelow(old(mem), mem, offset)
      ensures forall ds: seq<Delivery>, file: seq<byte> :: input == SessionBytes(ds) && ValidSession(ds) && TransfersFile(ds, file) ==>
                r.Complete? && filesize == |file| && HoldsBytes(mem, offset, file)
    {
      ghost var m0, mem0, parms := Init(offset, mem, ParmView()), mem, ParmView();
      r, filesize := KRecv(offset);
      hide Run;
      RunKeepsCheckpointedMemory(m0, input[..pos]);
      ghost var m := Run(m0, input[..pos]);
      assert input[0..|input|] == input && input[0..pos] == input[..pos];
      RunJoin(m0, m, input, 0, pos, |input|);
      assert pos == |input| ==> input[..pos] == input;
      if m.phase.Finished? || m.phase.Interrupted? {
        RunStaysPut(m, input[pos..]);
        assert input[pos..|input|] == input[pos..];
      }
      assert Run(m0, input) == m;
      forall ds: seq<Delivery>, file: seq<byte> | input == SessionBytes(ds) && ValidSession(ds) && TransfersFile(ds, file)
        ensures r.Complete? && filesize == |file| && HoldsBytes(mem, offset, file)
      {
        FileIsDelivered(offset, mem0, parms, ds, file);
      }
    }
  }

  /** What stands in the reply buffer once check and terminator are behind the covered characters. */
  lemma {:induction false} BufferIsReply(filled: seq<byte>, b: seq<byte>, length: nat, covered: seq<byte>, check: byte)
    requires |filled| == 24 && 3 <= length <= 16 && filled[0] == MARK && filled[1..length + 1] == covered && check != 0
    requires forall i :: 0 <= i <= length ==> filled[i] != 0
    requires |b| == 24 && b == filled[length + 1 := check][length + 2 := b[length + 2]][length + 3 := 0]
    ensures b[..length + 2] == [MARK] + covered + [check]
    ensures b[..length + 3] == [MARK] + covered + [check] + [b[length + 2]]
    ensures forall i :: 0 <= i < length + 2 ==> b[i] != 0
  {
    assert b[1..length + 1] == filled[1..length + 1];
    assert b[..length + 2] == [b[0]] + b[1..length + 1] + [b[length + 1]];
    assert b[..length + 3] == b[..length + 2] + [b[length + 2]];
  }

  lemma {:induction false} TransmittedIs(link: Link, body: seq<byte>)
    ensures Transmitted(link, body)
         == Padding(link.padCount, link.padChar) + (if link.eol == 0 then body else body + [link.eol])
  {
    assert body + [] == body;
  }

  lemma {:induction false} OfferItems()
    ensures |OFFER| == 13 && OFFER[0] == ToChar(94) && OFFER[1] == ToChar(1) && OFFER[2] == ToChar(0)
    ensures OFFER[3] == 0x40 && OFFER[4] == ToChar(CR) && OFFER[5] == HASH
  {
  }

  lemma {:induction false} NothingRead(m: Machine, s: seq<byte>, p: nat)
    requires p <= |s|
    ensures Run(m, s[p..p]) == m
  {
    assert s[p..p] == [];
  }

  lemma {:induction false} StepAtSequence(m: Machine, c: byte)
    requires m.phase.Sequence?
    ensures Step(m, c) == if Printable(c)
                          then Checkpoint(m.(phase := Kind(m.phase.sum + c, m.phase.length - 1), n := UnToChar(c)))
                          else Reject(m)
  {
  }

  lemma {:induction false} StepAtLengthHigh(m: Machine, c: byte)
    requires m.phase.LengthHigh?
    ensures Step(m, c) == if Printable(c) then m.(phase := LengthLow(m.phase.sum + c, m.phase.kind, UnToChar(c))) else Reject(m)
  {
  }

  lemma {:induction false} StepAtLengthLow(m: Machine, c: byte)
    requires m.phase.LengthLow?
    ensures Step(m, c) == if Printable(c)
                          then m.(phase := HeaderCheck(m.phase.sum + c, m.phase.kind, m.phase.high * 95 + UnToChar(c)))
                          else Reject(m)
  {
  }

  lemma {:induction false} RunStaysPut(m: Machine, s: seq<byte>)
    requires m.phase.Finished? || m.phase.Interrupted?
    ensures Run(m, s) == m
    decreases |s|
  {
    if s != [] { RunStaysPut(m, s[1..]); }
  }

  lemma {:induction false} RunJoin(m: Machine, m1: Machine, s: seq<byte>, a: nat, b: nat, c: nat)
    requires a <= b <= c <= |s| && Run(m, s[a..b]) == m1
    ensures Run(m, s[a..c]) == Run(m1, s[b..c])
  {
    assert s[a..c] == s[a..b] + s[b..c];
    RunConcat(m, s[a..b], s[b..c]);
  }

  lemma {:induction false} RunMore(m: Machine, s: seq<byte>, from: nat, to: nat)
    requires from <= to < |s|
    ensures Run(m, s[from..to + 1]) == Step(Run(m, s[from..to]), s[to])
  {
    assert s[from..to + 1] == s[from..to] + [s[to]];
    RunConcat(m, s[from..to], [s[to]]);
    assert [s[to]][1..] == [];
  }

  lemma {:induction false} RunOne(m: Machine, s: seq<byte>, from: nat)
    requires from < |s|
    ensures Run(m, s[from..from + 1]) == Step(m, s[from])
  {
    assert s[from..from] == [];
    RunMore(m, s, from, from);
  }
}

/**
 A sender for the receiver: it quotes a file, cuts the characters into packets of a chosen size,
 through quoted pairs where it happens, and frames them short or extended.
 */
module KermitSender {
  import opened Bytes
  import opened KermitWire
  import opened KermitMachine
  import opened KermitSession

  function Cut(s: seq<byte>, size: nat): seq<seq<byte>>
    requires size > 0
    decreases |s|
  {
    if s == [] then [] else if |s| <= size then [s] else [s[..size]] + Cut(s[size..], size)
  }

  function Join(ps: seq<seq<byte>>): seq<byte> {
    if ps == [] then [] else Join(ps[..|ps| - 1]) + ps[|ps| - 1]
  }

  lemma {:induction false} JoinPrepends(p: seq<byte>, ps: seq<seq<byte>>)
    ensures Join([p] + ps) == p + Join(ps)
  {
    var all := [p] + ps;
    if ps == [] {
      assert all[..0] == [];
    } else {
      hide Join;
      var n := |ps| - 1;
      JoinPrepends(p, ps[..n]);
      assert all[..|all| - 1] == [p] + ps[..n] && all[|all| - 1] == ps[n];
      JoinLast(ps);
      JoinLast(all);
      Reassociate(p, Join(ps[..n]), ps[n]);
    }
  }

  lemma {:induction false} JoinLast(ps: seq<seq<byte>>)
    requires ps != []
    ensures Join(ps) == Join(ps[..|ps| - 1]) + ps[|ps| - 1]
  {
  }

  lemma {:induction false} Reassociate(a: seq<byte>, b: seq<byte>, c: seq<byte>)
    ensures a + (b + c) == a + b + c
  {
  }

  lemma {:induction false} CutJoins(s: seq<byte>, size: nat)
    requires size > 0
    ensures Join(Cut(s, size)) == s
    decreases |s|
  {
    if s == [] {
    } else if |s| <= size {
      assert [s][..0] == [];
    } else {
      hide Join;
      CutJoins(s[size..], size);
      JoinPrepends(s[..size], Cut(s[size..], size));
      assert s[..size] + s[size..] == s;
    }
  }

  lemma {:induction false} PiecesFit(s: seq<byte>, size: nat)
    requires size > 0 && AllPrintable(s)
    ensures forall p :: p in Cut(s, size) ==> AllPrintable(p) && 0 < |p| <= size
    decreases |s|
  {
    if |s| > size { PiecesFit(s[size..], size); }
  }

  function Once(pkt: Packet, long: bool): Delivery { Delivery(pkt, [Intact([], long)]) }

  function Pieces(file: seq<byte>, init: seq<byte>, size: nat): seq<seq<byte>>
    requires size > 0
  {
    Cut(QuoteAll(AskedQuote(init), file), size)
  }

  /** Send-Init with the given parameters, the data packets, Break; every packet once. */
  function Session(file: seq<byte>, init: seq<byte>, size: nat, long: bool): seq<Delivery>
    requires size > 0
  {
    var pieces := Pieces(file, init, size);
    [Once(Packet(SEND, init), false)]
    + seq(|pieces|, i requires 0 <= i < |pieces| => Once(Packet(DATA, pieces[i]), long))
    + [Once(Packet(BREAK, []), false)]
  }

  lemma {:induction false} DataCharsJoin(pkts: seq<Packet>, pieces: seq<seq<byte>>)
    requires |pkts| == |pieces| + 1 && pkts[0].kind == SEND
    requires forall i :: 0 <= i < |pieces| ==> pkts[i + 1] == Packet(DATA, pieces[i])
    ensures DataChars(pkts) == Join(pieces)
    decreases |pieces|
  {
    var n := |pkts| - 1;
    if pieces == [] {
      assert pkts[..n] == [];
    } else {
      DataCharsJoin(pkts[..n], pieces[..n - 1]);
      assert pkts[n] == pkts[n - 1 + 1] == Packet(DATA, pieces[n - 1]);
    }
  }

  /** What a Send-Init packet and the packet size have to satisfy. */
  ghost predicate Choices(init: seq<byte>, size: nat, long: bool) {
    && AllPrintable(init) && |init| <= 91 && UsableQuote(AskedQuote(init))
    && 0 < size <= if long then 94 * 95 + 93 else 91
  }

  /** The packets of a session by their position. */
  lemma {:induction false} SessionAt(file: seq<byte>, init: seq<byte>, size: nat, long: bool)
    requires size > 0
    ensures var ds, pieces := Session(file, init, size, long), Pieces(file, init, size);
            && |ds| == |pieces| + 2
            && ds[0] == Once(Packet(SEND, init), false) && ds[|ds| - 1] == Once(Packet(BREAK, []), false)
            && forall i :: 0 < i < |ds| - 1 ==> ds[i] == Once(Packet(DATA, pieces[i - 1]), long)
  {
    hide Cut, QuoteAll;
  }

  lemma {:induction false} SessionIsValid(file: seq<byte>, init: seq<byte>, size: nat, long: bool)
    requires Choices(init, size, long)
    ensures ValidSession(Session(file, init, size, long)) && TransfersFile(Session(file, init, size, long), file)
  {
    SessionAt(file, init, size, long);
    hide Session, Pieces, ValidDelivery;
    var ds := Session(file, init, size, long);
    forall i | 0 <= i < |ds| ensures ValidDelivery(i % 64, ds[i]) {
      PacketIsValid(file, init, size, long, i);
    }
    SessionTransfers(file, init, size, long);
  }

  lemma {:induction false} PacketIsValid(file: seq<byte>, init: seq<byte>, size: nat, long: bool, i: nat)
    requires Choices(init, size, long) && i < |Session(file, init, size, long)|
    ensures ValidDelivery(i % 64, Session(file, init, size, long)[i])
  {
    SessionAt(file, init, size, long);
    hide Session, Cut, QuoteAll, AllPrintable, Printable, ValidDelivery;
    KindsArePrintable();
    var ds, pieces := Session(file, init, size, long), Pieces(file, init, size);
    PiecesFit(QuoteAll(AskedQuote(init), file), size);
    if 0 < i < |ds| - 1 { assert pieces[i - 1] in pieces; }
    OnceIsValid(i % 64, ds[i].pkt, ds[i].tries[0].long);
  }

  lemma {:induction false} SessionTransfers(file: seq<byte>, init: seq<byte>, size: nat, long: bool)
    requires Choices(init, size, long)
    ensures TransfersFile(Session(file, init, size, long), file)
  {
    SessionAt(file, init, size, long);
    hide Session, Cut, QuoteAll, DataChars, Join;
    var ds, pieces := Session(file, init, size, long), Pieces(file, init, size);
    var pkts := Packets(ds[..|ds| - 1]);
    forall i | 0 <= i < |pieces| ensures pkts[i + 1] == Packet(DATA, pieces[i]) {
      assert ds[i + 1] == Once(Packet(DATA, pieces[i]), long);
    }
    DataCharsJoin(pkts, pieces);
    CutJoins(QuoteAll(AskedQuote(init), file), size);
  }

  lemma {:induction false} KindsArePrintable()
    ensures Printable(SEND) && Printable(DATA) && Printable(BREAK) && AllPrintable([])
  {
  }

  lemma {:induction false} OnceIsValid(n: nat, pkt: Packet, long: bool)
    requires n < 64 && Sendable(pkt, long)
    ensures ValidDelivery(n, Once(pkt, long))
  {
  }

  /**
   Every file arrives: for every byte string, every usable quote character, every packet size and
   either framing, the receiver ends with exactly the file in memory.
   */
  lemma {:induction false} EveryFileArrives(file: seq<byte>, init: seq<byte>, size: nat, long: bool,
                                            start: int, mem: map<int, byte>, parms: Parms)
    requires Choices(init, size, long)
    ensures var m := Run(Init(start, mem, parms), SessionBytes(Session(file, init, size, long)));
            && m.phase == Finished && m.sink.addr - start == |file|
            && HoldsBytes(m.sink.mem, start, file) && AgreeBelow(mem, m.sink.mem, start)
  {
    hide Run, Session, SessionBytes, ValidSession, TransfersFile, HoldsBytes, AgreeBelow;
    SessionIsValid(file, init, size, long);
    FileIsDelivered(start, mem, parms, Session(file, init, size, long), file);
  }
}

/**
 IDE block transfers with CONFIG_LBA48 and CONFIG_SYS_64BIT_LBA: ide_wait, ide_read and ide_write
 drive the task file of a bus with two drives.  The four address registers are two deep, as the
 48-bit Address feature set of ATA/ATAPI-6 has them: a write pushes the former content back.
 */
module IdeBlocks {
  import opened Bytes
  import opened Division

  const BLOCK := 512
  const LBA28 := 0x1000_0000
  const LBA48 := 0x1_0000_0000_0000
  const LBA64 := 0x1_0000_0000_0000_0000

  const CMD_READ: byte := 0x20
  const CMD_WRITE: byte := 0x30
  const CMD_READ_EXT: byte := 0x24
  const CMD_WRITE_EXT: byte := 0x34
  const CMD_CHK_PWR: byte := 0xE5

  const TIME_OUT: nat := 2000
  const SPIN_UP_TIME_OUT: nat := 5000

  predicate Busy(status: byte) { status / 0x80 == 1 }
  predicate Failed(status: byte) { status % 2 == 1 }
  predicate DataRequest(status: byte) { status / 8 % 2 == 1 }
  predicate Ready(status: byte) { DataRequest(status) && !Busy(status) && !Failed(status) }

  /** The status tests of the code: (c & 0x80), (c & 0x01) and (c & 0x89) == 0x08. */
  lemma {:induction false} StatusBits(status: byte, c: bv8)
    requires c as int == status
    ensures Busy(status) <==> c & 0x80 != 0
    ensures Failed(status) <==> c & 0x01 != 0
    ensures Ready(status) <==> c & 0x89 == 0x08
  {
    TopBit(c);
    LowBit(c);
    ThirdBit(c);
    assert c & 0x89 == 0x08 <==> c & 0x80 == 0 && c & 0x08 != 0 && c & 0x01 == 0;
  }

  lemma {:induction false} TopBit(c: bv8)
    ensures c & 0x80 != 0 <==> c as int >= 0x80
  {
  }

  lemma {:induction false} LowBit(c: bv8)
    ensures (c & 1) as int == c as int % 2
    ensures c & 1 != 0 <==> (c & 1) as int == 1
  {
  }

  lemma {:induction false} Eighth(c: bv8)
    ensures (c >> 3) as int == c as int / 8
  {
  }

  lemma {:induction false} ThirdBit(c: bv8)
    ensures c & 0x08 != 0 <==> c as int / 8 % 2 == 1
  {
    Eighth(c);
    LowBit(c >> 3);
    assert c & 0x08 != 0 <==> (c >> 3) & 1 != 0;
  }

  // ---------------------------------------------------------------- the device

  datatype Fifo = Fifo(current: byte, previous: byte)

  datatype TaskFile = TaskFile(count: Fifo, low: Fifo, mid: Fifo, high: Fifo, head: byte)

  datatype Register = SectCnt | LbaLow | LbaMid | LbaHigh | DevHd

  function Push(f: Fifo, v: byte): Fifo { Fifo(v, f.current) }

  function Latch(t: TaskFile, r: Register, v: byte): TaskFile {
    match r
    case SectCnt => t.(count := Push(t.count, v))
    case LbaLow => t.(low := Push(t.low, v))
    case LbaMid => t.(mid := Push(t.mid, v))
    case LbaHigh => t.(high := Push(t.high, v))
    case DevHd => t.(head := v)
  }

  /** What a drive that got a command will move over the data port. */
  datatype Transfer =
    | Idle
    | Reading(drive: nat, lba: nat, count: nat)
    | Writing(drive: nat, lba: nat, count: nat)

  function SelectedDrive(t: TaskFile): nat { t.head / 16 % 2 }

  function Address28(t: TaskFile): nat {
    t.low.current + 256 * (t.mid.current + 256 * (t.high.current + 256 * (t.head % 16)))
  }

  function Address48(t: TaskFile): nat {
    t.low.current + 256 * (t.mid.current + 256 * (t.high.current
      + 256 * (t.low.previous + 256 * (t.mid.previous + 256 * t.high.previous))))
  }

  function Count28(t: TaskFile): nat { if t.count.current == 0 then 256 else t.count.current }

  function Count48(t: TaskFile): nat {
    var c := t.count.current + 256 * t.count.previous;
    if c == 0 then 0x1_0000 else c
  }

  /** How the drive understands a command with the LBA bit of the device/head register set. */
  function Accept(t: TaskFile, command: byte): Transfer {
    var d := SelectedDrive(t);
    if t.head / 0x40 % 2 == 0 then Idle
    else if command == 0x20 then Reading(d, Address28(t), Count28(t))
    else if command == 0x30 then Writing(d, Address28(t), Count28(t))
    else if command == 0x24 then Reading(d, Address48(t), Count48(t))
    else if command == 0x34 then Writing(d, Address48(t), Count48(t))
    else Idle
  }

  /** The bytes of both drives: drive and byte address give a byte. */
  type Media = (nat, nat) -> byte

  function PutBlock(m: Media, drive: nat, lba: nat, data: seq<byte>): Media
    requires |data| == BLOCK
  {
    (d: nat, a: nat) => if d == drive && BLOCK * lba <= a < BLOCK * lba + BLOCK then data[a - BLOCK * lba] else m(d, a)
  }

  // ---------------------------------------------------------------- the driver's addressing

  /** The lba48 flag of a request, decided once from its first block. */
  predicate UsesLba48(start: nat) { start / LBA28 % 0x10_0000 != 0 }

  function Low(b: nat): byte { b % 256 }
  function Mid(b: nat): byte { b / 0x100 % 256 }
  function High(b: nat): byte { b / 0x1_0000 % 256 }
  function Fourth(b: nat): byte { b / 0x100_0000 % 256 }
  function Fifth(b: nat): byte { b / 0x1_0000_0000 % 256 }
  function Sixth(b: nat): byte { b / 0x100_0000_0000 % 256 }

  function SelectByte(device: nat, top: nat): byte
    requires top < 16
  {
    0xE0 + 16 * (device % 2) + top
  }

  /** The task file after the register writes for block b. */
  function Program(t: TaskFile, device: nat, b: nat, lba48: bool): TaskFile {
    TaskFile(
      Fifo(1, if lba48 then 0 else t.count.current),
      Fifo(Low(b), if lba48 then Fourth(b) else t.low.current),
      Fifo(Mid(b), if lba48 then Fifth(b) else t.mid.current),
      Fifo(High(b), if lba48 then Sixth(b) else t.high.current),
      SelectByte(device, if lba48 then 0 else b / 0x100_0000 % 16))
  }

  /** Block number k of a request that starts at start, in 64-bit arithmetic. */
  function BlockOf(start: nat, k: nat): (b: nat) ensures b < LBA64 { (start + k) % LBA64 }

  /** The block the drive is told to move instead. */
  function Addressed(start: nat, k: nat): nat {
    if UsesLba48(start) then BlockOf(start, k) % LBA48 else BlockOf(start, k) % LBA28
  }

  lemma {:induction false} ThreeDigits(b: nat)
    ensures b == b % 256 + 256 * (b / 0x100 % 256 + 256 * (b / 0x1_0000 % 256 + 256 * (b / 0x100_0000)))
  {
    assert b / 0x1_0000 == b / 256 / 256 && b / 0x100_0000 == b / 256 / 256 / 256;
  }

  lemma {:induction false} Assemble28(b: nat)
    ensures Low(b) + 256 * (Mid(b) + 256 * (High(b) + 256 * (b / 0x100_0000 % 16))) == b % LBA28
  {
    ThreeDigits(b);
    var q := b / 0x100_0000;
    DivMod(q, 16);
    FourDigits(b, Low(b), Mid(b), High(b), q % 16, q / 16);
  }

  /** Digits below 256 and a last one below 16. */
  lemma {:induction false} FourDigits(b: nat, l: nat, m: nat, h: nat, f: nat, rest: nat)
    requires l < 256 && m < 256 && h < 256 && f < 16
    requires b == l + 256 * (m + 256 * (h + 256 * (16 * rest + f)))
    ensures l + 256 * (m + 256 * (h + 256 * f)) == b % LBA28
  {
    Quotient(b, LBA28, rest, l + 256 * (m + 256 * (h + 256 * f)));
  }

  lemma {:induction false} Assemble48(b: nat)
    ensures Low(b) + 256 * (Mid(b) + 256 * (High(b) + 256 * (Fourth(b) + 256 * (Fifth(b) + 256 * Sixth(b))))) == b % LBA48
  {
    ThreeDigits(b);
    ThreeDigits(b / 0x100_0000);
    HigherDigits(b);
    SixDigits(b, Low(b), Mid(b), High(b), Fourth(b), Fifth(b), Sixth(b), b / 0x100_0000 / 0x100_0000);
  }

  lemma {:induction false} SixDigits(b: nat, l: nat, m: nat, h: nat, f: nat, g: nat, s: nat, rest: nat)
    requires l < 256 && m < 256 && h < 256 && f < 256 && g < 256 && s < 256
    requires b == l + 256 * (m + 256 * (h + 256 * (f + 256 * (g + 256 * (s + 256 * rest)))))
    ensures l + 256 * (m + 256 * (h + 256 * (f + 256 * (g + 256 * s)))) == b % LBA48
  {
    Quotient(b, LBA48, rest, l + 256 * (m + 256 * (h + 256 * (f + 256 * (g + 256 * s)))));
  }

  lemma {:induction false} HigherDigits(b: nat)
    ensures var q := b / 0x100_0000;
            Fourth(b) == q % 256 && Fifth(b) == q / 0x100 % 256 && Sixth(b) == q / 0x1_0000 % 256
  {
  }

  /** On the two-deep registers every command moves one block: the addressed one, on the asked drive. */
  lemma {:induction false} CommandsDecode(t: TaskFile, device: nat, start: nat, k: nat)
    ensures var lba48 := UsesLba48(start);
            var p := Program(t, device, BlockOf(start, k), lba48);
            && Accept(p, if lba48 then CMD_READ_EXT else CMD_READ) == Reading(device % 2, Addressed(start, k), 1)
            && Accept(p, if lba48 then CMD_WRITE_EXT else CMD_WRITE) == Writing(device % 2, Addressed(start, k), 1)
  {
    hide Low, Mid, High, Fourth, Fifth, Sixth, UsesLba48, BlockOf;
    var b := BlockOf(start, k);
    Assemble28(b);
    Assemble48(b);
    HeadByte(device, b / 0x100_0000 % 16);
    HeadByte(device, 0);
  }

  lemma {:induction false} HeadByte(device: nat, top: nat)
    requires top < 16
    ensures SelectByte(device, top) / 16 % 2 == device % 2 && SelectByte(device, top) % 16 == top
    ensures SelectByte(device, top) / 0x40 % 2 == 1
  {
  }

  /** The requests whose blocks all get their own address: those on one side of block 2^28. */
  predicate Addressable(start: nat, count: nat) {
    count == 0 || start + count <= LBA28 || (LBA28 <= start && start + count <= LBA48)
  }

  lemma {:induction false} AddressedExactly(start: nat, count: nat)
    requires start < LBA64
    ensures (forall k :: 0 <= k < count ==> Addressed(start, k) == start + k) <==> Addressable(start, count)
  {
    if Addressable(start, count) {
      forall k | 0 <= k < count ensures Addressed(start, k) == start + k {
        AddressedWithin(start, count, k);
      }
    } else {
      var k := if start >= LBA48 then 0 else if start < LBA28 then LBA28 - start else LBA48 - start;
      assert k < count;
      AddressedBeyond(start, k);
      assert Addressed(start, k) != start + k;
    }
  }

  lemma {:induction false} AddressedWithin(start: nat, count: nat, k: nat)
    requires Addressable(start, count) && k < count
    ensures Addressed(start, k) == start + k
  {
    assert BlockOf(start, k) == start + k;
    if start >= LBA28 { assert 0 < start / LBA28 < 0x10_0000; }
  }

  lemma {:induction false} AddressedBeyond(start: nat, k: nat)
    requires start < LBA64
    requires k == if start >= LBA48 then 0 else if start < LBA28 then LBA28 - start else LBA48 - start
    ensures Addressed(start, k) != start + k
  {
  }

  // ---------------------------------------------------------------- whole requests

  function GetBlock(m: Media, drive: nat, lba: nat): (data: seq<byte>)
    ensures |data| == BLOCK
  {
    seq(BLOCK, (i: nat) => m(drive, BLOCK * lba + i))
  }

  /** The media after the first n blocks of data went to the drive. */
  function WriteBlocks(m: Media, drive: nat, start: nat, data: seq<byte>, n: nat): Media
    requires BLOCK * n <= |data|
  {
    if n == 0 then m
    else
      PutBlock(WriteBlocks(m, drive, start, data, n - 1), drive, Addressed(start, n - 1),
               data[BLOCK * (n - 1)..BLOCK * (n - 1) + BLOCK])
  }

  /** What reading n blocks brings. */
  function ReadBlocks(m: Media, drive: nat, start: nat, n: nat): (data: seq<byte>)
    ensures |data| == BLOCK * n
  {
    if n == 0 then [] else ReadBlocks(m, drive, start, n - 1) + GetBlock(m, drive, Addressed(start, n - 1))
  }

  /** Within the addressable range a write replaces exactly the bytes of blocks start .. start + n - 1. */
  lemma {:induction false} WriteIsFlat(m: Media, drive: nat, start: nat, data: seq<byte>, n: nat, d: nat, a: nat)
    requires BLOCK * n <= |data| && Addressable(start, n)
    ensures WriteBlocks(m, drive, start, data, n)(d, a)
            == if d == drive && BLOCK * start <= a < BLOCK * (start + n) then data[a - BLOCK * start] else m(d, a)
  {
    if n > 0 {
      WriteIsFlat(m, drive, start, data, n - 1, d, a);
      AddressedWithin(start, n, n - 1);
    }
  }

  lemma {:induction false} ReadIsFlat(m: Media, drive: nat, start: nat, n: nat, p: nat)
    requires Addressable(start, n) && p < BLOCK * n
    ensures ReadBlocks(m, drive, start, n)[p] == m(drive, BLOCK * start + p)
  {
    AddressedWithin(start, n, n - 1);
    if p < BLOCK * (n - 1) {
      ReadIsFlat(m, drive, start, n - 1, p);
    }
  }

  /** What was written is read back, for any shorter read as well. */
  lemma {:induction false} ReadAfterWrite(m: Media, drive: nat, start: nat, data: seq<byte>, n: nat, r: nat)
    requires BLOCK * n <= |data| && Addressable(start, n) && r <= n
    ensures ReadBlocks(WriteBlocks(m, drive, start, data, n), drive, start, r) == data[..BLOCK * r]
  {
    var w := WriteBlocks(m, drive, start, data, n);
    forall p | 0 <= p < BLOCK * r ensures ReadBlocks(w, drive, start, r)[p] == data[p] {
      ReadIsFlat(w, drive, start, r, p);
      WriteIsFlat(m, drive, start, data, n, drive, BLOCK * start + p);
    }
  }

  /** On every medium and with any data, a write replaces the bytes of its blocks and no others. */
  ghost predicate HitsExactly(start: nat, n: nat) {
    forall m: Media, drive: nat, data: seq<byte>, d: nat, a: nat | |data| == BLOCK * n ::
      WriteBlocks(m, drive, start, data, n)(d, a)
      == if d == drive && BLOCK * start <= a < BLOCK * (start + n) then data[a - BLOCK * start] else m(d, a)
  }

  /** A write is the flat one exactly for the addressable requests. */
  lemma {:induction false} WritesHitExactly(start: nat, n: nat)
    requires start < LBA64
    ensures HitsExactly(start, n) <==> Addressable(start, n)
  {
    if Addressable(start, n) {
      forall m: Media, drive: nat, data: seq<byte>, d: nat, a: nat | |data| == BLOCK * n
        ensures WriteBlocks(m, drive, start, data, n)(d, a)
             == if d == drive && BLOCK * start <= a < BLOCK * (start + n) then data[a - BLOCK * start] else m(d, a)
      {
        WriteIsFlat(m, drive, start, data, n, d, a);
      }
    } else {
      var k := if start >= LBA48 then 0 else if start < LBA28 then LBA28 - start else LBA48 - start;
      var m: Media := (d: nat, a: nat) => 0;
      var data := seq(BLOCK * n, (i: nat) => 1 as byte);
      AddressedBelow(start, k);
      BlockIsMissed(m, start, data, n, k);
      assert WriteBlocks(m, 0, start, data, n)(0, BLOCK * (start + k)) == 0;
    }
  }

  /** Requests that are not addressable miss the first block beyond the boundary. */
  lemma {:induction false} AddressedBelow(start: nat, k: nat)
    requires start < LBA64
    requires k == if start >= LBA48 then 0 else if start < LBA28 then LBA28 - start else LBA48 - start
    ensures forall j :: 0 <= j ==> Addressed(start, j) != start + k
  {
    assert start + k >= if UsesLba48(start) then LBA48 else LBA28 by {
      assert start >= LBA48 || UsesLba48(start) == (start >= LBA28);
    }
  }

  lemma {:induction false} BlockIsMissed(m: Media, start: nat, data: seq<byte>, n: nat, k: nat)
    requires BLOCK * n <= |data| && forall j :: 0 <= j ==> Addressed(start, j) != start + k
    ensures WriteBlocks(m, 0, start, data, n)(0, BLOCK * (start + k)) == m(0, BLOCK * (start + k))
  {
    if n > 0 {
      BlockIsMissed(m, start, data, n - 1, k);
    }
  }

  // ---------------------------------------------------------------- the code

  class Bus {
    var task: TaskFile
    var transfer: Transfer
    var media: Media
    var polls: nat
    const statuses: nat -> byte      // what the successive reads of the status register return
    const powerMode: byte            // the sector count after a power mode check

    constructor (statuses: nat -> byte, powerMode: byte, media: Media)
      ensures this.statuses == statuses && this.powerMode == powerMode && this.media == media
      ensures transfer == Idle && polls == 0
    {
      this.statuses, this.powerMode, this.media := statuses, powerMode, media;
      task := TaskFile(Fifo(0, 0), Fifo(0, 0), Fifo(0, 0), Fifo(0, 0), 0);
      transfer, polls := Idle, 0;
    }

    method Outb(r: Register, v: byte)
      modifies this`task
      ensures task == Latch(old(task), r, v)
    {
      task := Latch(task, r, v);
    }

    /** A drive takes a command only after a status that was not busy. */
    method Command(c: byte)
      requires polls > 0 && !Busy(statuses(polls - 1))
      modifies this`transfer
      ensures transfer == Accept(task, c)
    {
      transfer := Accept(task, c);
    }

    method Status() returns (c: byte)
      modifies this`polls
      ensures c == statuses(old(polls)) && polls == old(polls) + 1
    {
      c := statuses(polls);
      polls := polls + 1;
    }

    /** ide_wait: polls every 100 us until not busy, 10 t + 1 times at most. */
    method Wait(t: nat) returns (c: byte)
      modifies this`polls
      ensures old(polls) < polls <= old(polls) + 10 * t + 1
      ensures c == statuses(polls - 1)
      ensures forall i :: old(polls) <= i < polls - 1 ==> Busy(statuses(i))
      ensures Busy(c) ==> polls == old(polls) + 10 * t + 1
    {
      var delay := 10 * t;
      c := Status();
      while Busy(c)
        invariant polls == old(polls) + 10 * t - delay + 1 && 0 <= delay <= 10 * t
        invariant c == statuses(polls - 1)
        invariant forall i :: old(polls) <= i < polls - 1 ==> Busy(statuses(i))
        decreases delay
      {
        if delay == 0 { break; }
        delay := delay - 1;
        c := Status();
      }
    }

    /** The data port of a drive that was told to read one block, and whose last status asks for it. */
    method InputData(buffer: array<byte>, at: nat)
      requires polls > 0 && Ready(statuses(polls - 1))
      requires transfer.Reading? && transfer.count == 1 && at + BLOCK <= buffer.Length
      modifies this`transfer, buffer
      ensures transfer == Idle
      ensures buffer[..] == old(buffer[..at]) + GetBlock(media, old(transfer).drive, old(transfer).lba)
                            + old(buffer[at + BLOCK..])
    {
      var data := GetBlock(media, transfer.drive, transfer.lba);
      forall i | 0 <= i < BLOCK { buffer[at + i] := data[i]; }
      transfer := Idle;
    }

    method OutputData(data: seq<byte>)
      requires polls > 0 && Ready(statuses(polls - 1))
      requires transfer.Writing? && transfer.count == 1 && |data| == BLOCK
      modifies this`transfer, this`media
      ensures transfer == Idle
      ensures media == PutBlock(old(media), old(transfer).drive, old(transfer).lba, data)
    {
      media := PutBlock(media, transfer.drive, transfer.lba, data);
      transfer := Idle;
    }

    /** The register writes that both loops share. */
    method ProgramBlock(device: nat, b: nat, lba48: bool)
      modifies this`task
      ensures task == Program(old(task), device, b, lba48)
    {
      if lba48 {
        Outb(SectCnt, 0);
        Outb(LbaLow, Fourth(b));
        Outb(LbaMid, Fifth(b));
        Outb(LbaHigh, Sixth(b));
      }
      Outb(SectCnt, 1);
      Outb(LbaLow, Low(b));
      Outb(LbaMid, Mid(b));
      Outb(LbaHigh, High(b));
      Outb(DevHd, SelectByte(device, if lba48 then 0 else b / 0x100_0000 % 16));
    }

    /** Every status the device will ever show lets a transfer go on. */
    ghost predicate NeverFails() { forall i: nat :: Ready(statuses(i)) }

    /** The last status was bad, and if it was busy, so were the 10 t before it. */
    ghost predicate GaveUp(t: nat)
      reads this
    {
      && polls > 0 && !Ready(statuses(polls - 1))
      && (Busy(statuses(polls - 1)) ==> polls > 10 * t && forall i :: polls - 10 * t - 1 <= i < polls ==> Busy(statuses(i)))
    }

    lemma {:induction false} GivesUp(from: nat, t: nat)
      requires from < polls <= from + 10 * t + 1 && !Ready(statuses(polls - 1))
      requires forall i :: from <= i < polls - 1 ==> Busy(statuses(i))
      requires Busy(statuses(polls - 1)) ==> polls == from + 10 * t + 1
      ensures GaveUp(t)
    {
      hide Ready, Busy;
    }

    lemma {:induction false} GivesUpSooner(t: nat, t': nat)
      requires GaveUp(t') && t <= t'
      ensures GaveUp(t)
    {
      hide Ready, Busy;
    }

    /** One turn of the write loop. */
    method WriteOne(device: nat, start: nat, k: nat, b: nat, data: seq<byte>) returns (ok: bool)
      requires b == BlockOf(start, k) && |data| == BLOCK
      modifies this`task, this`transfer, this`media, this`polls
      ensures media == if ok then PutBlock(old(media), device % 2, Addressed(start, k), data) else old(media)
      ensures NeverFails() ==> ok
      ensures !ok ==> GaveUp(TIME_OUT)
    {
      hide *;
      var lba48 := UsesLba48(start);
      ok := false;
      BusyIsNotReady();
      ghost var from := polls;
      var c := Wait(TIME_OUT);
      if Busy(c) { GivesUp(from, TIME_OUT); return; }
      CommandsDecode(task, device, start, k);
      ProgramBlock(device, b, lba48);
      Command(if lba48 then CMD_WRITE_EXT else CMD_WRITE);
      from := polls;
      c := Wait(TIME_OUT);
      if !Ready(c) { GivesUp(from, TIME_OUT); return; }
      OutputData(data);
      c := Status();
      ok := true;
    }

    /** One turn of the read loop. */
    method ReadOne(device: nat, start: nat, k: nat, b: nat, patience: nat, buffer: array<byte>) returns (ok: bool)
      requires b == BlockOf(start, k) && BLOCK * k + BLOCK <= buffer.Length
      modifies this`task, this`transfer, this`polls, buffer
      ensures !ok ==> buffer[..] == old(buffer[..])
      ensures ok ==> buffer[..] == old(buffer[..BLOCK * k]) + GetBlock(media, device % 2, Addressed(start, k))
                                   + old(buffer[BLOCK * k + BLOCK..])
      ensures NeverFails() ==> ok
      ensures !ok ==> (transfer == old(transfer) && GaveUp(TIME_OUT)) || (transfer.Reading? && GaveUp(patience))
    {
      hide Accept, Program, BlockOf, Addressed, UsesLba48, Ready, Busy, GetBlock, NeverFails, GaveUp;
      var lba48 := UsesLba48(start);
      ok := false;
      BusyIsNotReady();
      ghost var from := polls;
      var c := Wait(TIME_OUT);
      if Busy(c) { GivesUp(from, TIME_OUT); return; }
      CommandsDecode(task, device, start, k);
      ProgramBlock(device, b, lba48);
      Command(if lba48 then CMD_READ_EXT else CMD_READ);
      from := polls;
      c := Wait(patience);
      if !Ready(c) { GivesUp(from, patience); return; }
      InputData(buffer, BLOCK * k);
      c := Status();
      ok := true;
    }

    lemma {:induction false} BusyIsNotReady()
      ensures forall i: nat :: Busy(statuses(i)) ==> !Ready(statuses(i))
      ensures NeverFails() ==> forall i: nat :: Ready(statuses(i))
    {
    }

    method IdeWrite(device: nat, start: nat, count: nat, buffer: seq<byte>) returns (n: nat)
      requires start < LBA64 && count < LBA64 && BLOCK * count <= |buffer|
      modifies this
      ensures n <= count
      ensures media == WriteBlocks(old(media), device % 2, start, buffer, n)
      ensures NeverFails() ==> n == count
      ensures n < count ==> GaveUp(2000)
    {
      hide Addressed, PutBlock, Ready, NeverFails, GaveUp;
      var blknr, blkcnt := start, count;
      n := 0;
      Outb(DevHd, SelectByte(device, 0));
      while blkcnt > 0
        invariant n + blkcnt == count && blknr == BlockOf(start, n)
        invariant media == WriteBlocks(old(media), device % 2, start, buffer, n)
      {
        var ok := WriteOne(device, start, n, blknr, buffer[BLOCK * n..BLOCK * n + BLOCK]);
        if !ok { return; }
        n, blknr, blkcnt := n + 1, (blknr + 1) % LBA64, blkcnt - 1;
      }
    }

    method IdeRead(device: nat, start: nat, count: nat, buffer: array<byte>) returns (n: nat)
      requires start < LBA64 && count < LBA64 && BLOCK * count <= buffer.Length
      modifies this, buffer
      ensures n <= count && media == old(media)
      ensures buffer[..] == ReadBlocks(media, device % 2, start, n) + old(buffer[..])[BLOCK * n..]
      ensures NeverFails() ==> n == count
      ensures n < count ==> GaveUp(2000)
      ensures n == 0 < count && old(transfer).Idle? && transfer.Reading? && powerMode == 0 && (forall i :: !Failed(statuses(i))) ==> GaveUp(5000)
    {
      hide GaveUp, Ready, Busy, NeverFails;
      n := 0;
      Outb(DevHd, SelectByte(device, 0));
      BusyIsNotReady();
      assert ReadBlocks(media, device % 2, start, 0) + buffer[..][0..] == buffer[..];
      ghost var from := polls;
      var c := Wait(TIME_OUT);
      if Busy(c) { GivesUp(from, TIME_OUT); return; }
      Command(CMD_CHK_PWR);
      from := polls;
      c := Wait(TIME_OUT);
      if Busy(c) { GivesUp(from, TIME_OUT); return; }
      n := ReadLoop(device, start, count, buffer, !Failed(c) && powerMode == 0);
    }

    method ReadLoop(device: nat, start: nat, count: nat, buffer: array<byte>, asleep: bool) returns (n: nat)
      requires start < LBA64 && count < LBA64 && BLOCK * count <= buffer.Length
      modifies this`task, this`transfer, this`polls, buffer
      ensures n <= count
      ensures buffer[..] == ReadBlocks(media, device % 2, start, n) + old(buffer[..])[BLOCK * n..]
      ensures NeverFails() ==> n == count
      ensures n < count ==> GaveUp(TIME_OUT)
      ensures n == 0 < count && asleep && old(transfer).Idle? && transfer.Reading? ==> GaveUp(SPIN_UP_TIME_OUT)
    {
      hide Addressed, Ready, GetBlock, ReadBlocks, BlockOf, NeverFails, GaveUp;
      var blknr, blkcnt, powerSave := start, count, asleep;
      n := 0;
      ghost var first := buffer[..];
      FirstBlock(media, device % 2, start, first);
      while blkcnt > 0
        invariant n + blkcnt == count && blknr == BlockOf(start, n)
        invariant buffer[..] == ReadBlocks(media, device % 2, start, n) + first[BLOCK * n..]
        invariant n == 0 ==> powerSave == asleep && transfer == old(transfer)
      {
        ghost var was := buffer[..];
        var patience := if powerSave then SPIN_UP_TIME_OUT else TIME_OUT;
        var ok := ReadOne(device, start, n, blknr, patience, buffer);
        powerSave := false;
        if !ok {
          if GaveUp(patience) { GivesUpSooner(TIME_OUT, patience); }
          return;
        }
        ReadGrows(media, device % 2, start, n, first, was, buffer[..]);
        NextBlock(start, n);
        n, blknr, blkcnt := n + 1, (blknr + 1) % LBA64, blkcnt - 1;
      }
    }
  }

  lemma {:induction false} FirstBlock(m: Media, drive: nat, start: nat, buffer: seq<byte>)
    requires start < LBA64
    ensures BlockOf(start, 0) == start
    ensures ReadBlocks(m, drive, start, 0) + buffer[0..] == buffer
  {
  }

  lemma {:induction false} NextBlock(start: nat, k: nat)
    ensures BlockOf(start, k + 1) == (BlockOf(start, k) + 1) % LBA64
  {
  }

  /** One more block in the buffer. */
  lemma {:induction false} ReadGrows(m: Media, drive: nat, start: nat, n: nat, first: seq<byte>, was: seq<byte>, now: seq<byte>)
    requires BLOCK * n + BLOCK <= |first| == |was|
    requires was == ReadBlocks(m, drive, start, n) + first[BLOCK * n..]
    requires now == was[..BLOCK * n] + GetBlock(m, drive, Addressed(start, n)) + was[BLOCK * n + BLOCK..]
    ensures now == ReadBlocks(m, drive, start, n + 1) + first[BLOCK * (n + 1)..]
  {
    hide GetBlock, Addressed;
    assert was[..BLOCK * n] == ReadBlocks(m, drive, start, n);
    assert was[BLOCK * n + BLOCK..] == first[BLOCK * (n + 1)..];
  }

  /** A write of n blocks followed by a read of m of them, on the same drive. */
  method WriteThenRead(bus: Bus, device: nat, start: nat, count: nat, data: seq<byte>, buffer: array<byte>)
    returns (n: nat, m: nat)
    requires start < LBA64 && count < LBA64 && Addressable(start, count)
    requires BLOCK * count <= |data| && BLOCK * count <= buffer.Length
    modifies bus, buffer
    ensures m <= n <= count && buffer[..BLOCK * m] == data[..BLOCK * m]
    ensures forall d: nat, a: nat ::
              bus.media(d, a) == if d == device % 2 && BLOCK * start <= a < BLOCK * (start + n)
                                 then data[a - BLOCK * start] else old(bus.media)(d, a)
    ensures bus.NeverFails() ==> m == n == count
  {
    hide WriteBlocks, ReadBlocks;
    ghost var before := bus.media;
    n := bus.IdeWrite(device, start, count, data);
    m := bus.IdeRead(device, start, n, buffer);
    assert buffer[..BLOCK * m] == ReadBlocks(bus.media, device % 2, start, m);
    ReadAfterWrite(before, device % 2, start, data, n, m);
    forall d: nat, a: nat ensures
      bus.media(d, a) == if d == device % 2 && BLOCK * start <= a < BLOCK * (start + n)
                         then data[a - BLOCK * start] else before(d, a)
    {
      WriteIsFlat(before, device % 2, start, data, n, d, a);
    }
  }
}

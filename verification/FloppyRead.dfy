/**
 Floppy reads: the block arithmetic of fdc_issue_cmd and the chunk and retry loop of fdc_read_data,
 against a controller that delivers the sectors of one track side when its arm stands there.
 */
module FloppyRead {
  import opened Bytes
  import opened Division

  const RW_RETRIES := 3         // FDC_RW_RETRIES
  const CAL_RETRIES := 3        // FDC_CAL_RETRIES

  /** The part of FD_GEO_STRUCT that addressing needs. */
  datatype Geometry = Geometry(sect: nat, heads: nat, sectCode: nat)

  ghost predicate ValidGeometry(g: Geometry) { 0 < g.sect < 256 && 0 < g.heads <= 2 }

  datatype Location = Location(track: nat, head: nat, sector: nat)

  // ---------------------------------------------------------------- block arithmetic

  /** Sectors count from 1. */
  function Locate(g: Geometry, b: nat): Location
    requires g.sect > 0 && g.heads > 0
  {
    PositiveProduct(g.sect, g.heads);
    var perTrack := g.sect * g.heads;
    Location(b / perTrack, b % perTrack / g.sect, b % perTrack % g.sect + 1)
  }

  function BlockAt(g: Geometry, l: Location): int {
    g.sect * g.heads * l.track + g.sect * l.head + (l.sector - 1)
  }

  ghost predicate OnDisk(g: Geometry, l: Location) { l.head < g.heads && 1 <= l.sector <= g.sect }

  /** Blocks and locations correspond one to one. */
  lemma {:induction false} LocateInverts(g: Geometry, l: Location)
    requires g.sect > 0 && g.heads > 0 && OnDisk(g, l)
    ensures BlockAt(g, l) >= 0 && Locate(g, BlockAt(g, l)) == l
  {
    PositiveProduct(g.sect, g.heads);
    var perTrack := g.sect * g.heads;
    var rem := g.sect * l.head + (l.sector - 1);
    MulMono(g.sect, l.head + 1, g.heads);
    MulMono(g.sect, l.head, 0);
    Quotient(perTrack * l.track + rem, perTrack, l.track, rem);
    Quotient(rem, g.sect, l.head, l.sector - 1);
  }

  lemma {:induction false} BlockInverts(g: Geometry, b: nat)
    requires g.sect > 0 && g.heads > 0
    ensures OnDisk(g, Locate(g, b)) && BlockAt(g, Locate(g, b)) == b
  {
    PositiveProduct(g.sect, g.heads);
    var perTrack := g.sect * g.heads;
    var rem := b % perTrack;
    DivMod(b, perTrack);
    DivMod(rem, g.sect);
    QuotientBelow(rem, g.sect, g.heads);
    LocateIs(g, b, b / perTrack, rem / g.sect, rem % g.sect);
  }

  lemma {:induction false} LocateIs(g: Geometry, b: nat, t: nat, h: nat, s: nat)
    requires g.sect > 0 && g.heads > 0 && g.sect * g.heads > 0
    requires t == b / (g.sect * g.heads) && h == b % (g.sect * g.heads) / g.sect && s == b % (g.sect * g.heads) % g.sect
    ensures Locate(g, b) == Location(t, h, s + 1)
  {
  }

  /** The blocks that can still be read from the track side of b. */
  function RoomOnSide(g: Geometry, b: nat): (r: nat)
    requires g.sect > 0
    ensures 0 < r <= g.sect
  {
    g.sect - b % g.sect
  }

  /** The next blocks of a side lie behind each other on it. */
  lemma {:induction false} SameSide(g: Geometry, b: nat, k: nat)
    requires g.sect > 0 && g.heads > 0 && k < RoomOnSide(g, b)
    ensures var l := Locate(g, b);
            Locate(g, b + k) == Location(l.track, l.head, l.sector + k) && l.sector + k <= g.sect
  {
    hide Locate;
    SideOffset(g, b);
    BlockInverts(g, b);
    var l := Locate(g, b);
    LocateInverts(g, Location(l.track, l.head, l.sector + k));
  }

  lemma {:induction false} SideOffset(g: Geometry, b: nat)
    requires g.sect > 0 && g.heads > 0
    ensures b % g.sect == Locate(g, b).sector - 1
  {
    hide Locate;
    BlockInverts(g, b);
    var l := Locate(g, b);
    var q := g.heads * l.track + l.head;
    Associates(g.sect, g.heads, l.track);
    Distributes(g.sect, g.heads * l.track, l.head);
    Quotient(b, g.sect, q, l.sector - 1);
  }

  /** The command bytes cut the track number to eight bits. */
  function Commanded(g: Geometry, b: nat): Location
    requires g.sect > 0 && g.heads > 0
  {
    var l := Locate(g, b);
    Location(l.track % 256, l.head % 256, l.sector % 256)
  }

  /** A command addresses its own block exactly below the 256th track. */
  lemma {:induction false} CommandedExactly(g: Geometry, b: nat)
    requires ValidGeometry(g)
    ensures Commanded(g, b) == Locate(g, b) <==> b < g.sect * g.heads * 256
    ensures Commanded(g, b).sector == Locate(g, b).sector && Commanded(g, b).head == Locate(g, b).head
  {
    hide Locate, BlockAt;
    BlockInverts(g, b);
    PositiveProduct(g.sect, g.heads);
    QuotientBelow(b, g.sect * g.heads, 256);
    TrackOf(g, b);
  }

  lemma {:induction false} TrackOf(g: Geometry, b: nat)
    requires g.sect > 0 && g.heads > 0 && g.sect * g.heads > 0
    ensures Locate(g, b).track == b / (g.sect * g.heads)
  {
  }

  // ---------------------------------------------------------------- what is on the disk

  /** The content of the sector at a location. */
  type Disk = Location -> seq<byte>

  ghost predicate Formatted(d: Disk, size: nat) { forall l :: |d(l)| == size }

  /** 0x80 << sect_code */
  function SectorSize(code: nat): nat { if code == 0 then 0x80 else 2 * SectorSize(code - 1) }

  lemma {:induction false} SectorSizes()
    ensures SectorSize(0) == 128 && SectorSize(1) == 256 && SectorSize(2) == 512 && SectorSize(3) == 1024
  {
    assert SectorSize(1) == 256 && SectorSize(2) == 512;
  }

  /** The sectors s, s + 1, ... of one track side. */
  function Side(d: Disk, track: nat, head: nat, s: nat, n: nat): seq<byte> {
    if n == 0 then [] else Side(d, track, head, s, n - 1) + d(Location(track, head, s + (n - 1)))
  }

  /** The blocks b, b + 1, ... where the commands find them. */
  ghost function Image(d: Disk, g: Geometry, b: nat, n: nat): seq<byte>
    requires g.sect > 0 && g.heads > 0
  {
    if n == 0 then [] else Image(d, g, b, n - 1) + d(Commanded(g, b + (n - 1)))
  }

  /** The same blocks where they belong. */
  ghost function FlatImage(d: Disk, g: Geometry, b: nat, n: nat): seq<byte>
    requires g.sect > 0 && g.heads > 0
  {
    if n == 0 then [] else FlatImage(d, g, b, n - 1) + d(Locate(g, b + (n - 1)))
  }

  lemma {:induction false} SideLength(d: Disk, size: nat, track: nat, head: nat, s: nat, n: nat)
    requires Formatted(d, size)
    ensures |Side(d, track, head, s, n)| == size * n
  {
    if n > 0 {
      SideLength(d, size, track, head, s, n - 1);
      MulMono(size, n - 1, n);
    }
  }

  lemma {:induction false} ImageLength(d: Disk, size: nat, g: Geometry, b: nat, n: nat)
    requires Formatted(d, size) && g.sect > 0 && g.heads > 0
    ensures |Image(d, g, b, n)| == size * n
  {
    hide Commanded;
    if n > 0 {
      ImageLength(d, size, g, b, n - 1);
      MulMono(size, n - 1, n);
    }
  }

  lemma {:induction false} ImageJoins(d: Disk, g: Geometry, b: nat, n: nat, m: nat)
    requires g.sect > 0 && g.heads > 0
    ensures Image(d, g, b, n + m) == Image(d, g, b, n) + Image(d, g, b + n, m)
  {
    if m > 0 {
      ImageJoins(d, g, b, n, m - 1);
      assert b + n + (m - 1) == b + (n + m - 1);
    } else {
      assert Image(d, g, b + n, 0) == [];
    }
  }

  lemma {:induction false} SidePrefix(d: Disk, size: nat, track: nat, head: nat, s: nat, k: nat, n: nat)
    requires Formatted(d, size) && k <= n
    ensures Side(d, track, head, s, k) <= Side(d, track, head, s, n)
    decreases n
  {
    if k < n { SidePrefix(d, size, track, head, s, k, n - 1); }
  }

  /** A chunk that fits on its track side is what one read command delivers. */
  lemma {:induction false} ChunkIsImage(d: Disk, g: Geometry, b: nat, k: nat)
    requires ValidGeometry(g) && k <= RoomOnSide(g, b)
    ensures var c := Commanded(g, b);
            Side(d, c.track, c.head, c.sector, k) == Image(d, g, b, k)
  {
    if k > 0 {
      ChunkIsImage(d, g, b, k - 1);
      SameSide(g, b, k - 1);
      CommandedExactly(g, b);
      CommandedExactly(g, b + (k - 1));
    }
  }

  /** Below the 256th track every block is read from its own place. */
  lemma {:induction false} ImageIsFlat(d: Disk, g: Geometry, b: nat, n: nat)
    requires ValidGeometry(g) && b + n <= g.sect * g.heads * 256
    ensures Image(d, g, b, n) == FlatImage(d, g, b, n)
  {
    if n > 0 {
      ImageIsFlat(d, g, b, n - 1);
      CommandedExactly(g, b + (n - 1));
    }
  }

  /** From the 256th track on there is a disk of which the wrong block is read. */
  lemma {:induction false} ImageIsFlatExactly(g: Geometry, b: nat, n: nat, size: nat)
    requires ValidGeometry(g) && size > 0
    ensures (forall d: Disk | Formatted(d, size) :: Image(d, g, b, n) == FlatImage(d, g, b, n))
            <==> n == 0 || b + n <= g.sect * g.heads * 256
  {
    if n > 0 && b + n > g.sect * g.heads * 256 {
      var last := Locate(g, b + (n - 1));
      var d: Disk := (l: Location) => seq(size, (i: nat) => if l == last then 1 as byte else 0 as byte);
      CommandedExactly(g, b + (n - 1));
      var good, bad := FlatImage(d, g, b, n), Image(d, g, b, n);
      assert Formatted(d, size);
      assert d(last)[size - 1] == 1 && d(Commanded(g, b + (n - 1)))[size - 1] == 0;
      assert good[|good| - 1] == 1 && bad[|bad| - 1] == 0;
    } else if n > 0 {
      forall d: Disk | Formatted(d, size) ensures Image(d, g, b, n) == FlatImage(d, g, b, n) {
        ImageIsFlat(d, g, b, n);
      }
    }
  }

  // ---------------------------------------------------------------- the code

  /** How one read command ended. */
  datatype Outcome = Done | Fault | Stopped

  function Min(a: nat, b: nat): nat { if a > b then b else a }

  class Floppy {
    // the driver's command record
    var blnr: nat
    // the controller and the drive
    const geometry: Geometry
    const disk: Disk
    const answers: nat -> bool   // how the hardware's successive reactions turn out
    var clock: nat
    var arm: nat                 // the track under the head
    var queue: seq<byte>         // what the running read command can still deliver
    ghost var faults: nat        // transfers broken off by the controller
    ghost var recals: nat
    ghost var refused: bool      // a command timed out or a seek failed

    constructor (geometry: Geometry, disk: Disk, answers: nat -> bool, blnr: nat)
      ensures this.geometry == geometry && this.disk == disk && this.answers == answers && this.blnr == blnr
      ensures faults == 0 && recals == 0 && !refused
    {
      this.geometry, this.disk, this.answers, this.blnr := geometry, disk, answers, blnr;
      clock, arm, queue := 0, 0, [];
      faults, recals, refused := 0, 0, false;
    }

    ghost predicate Ready()
    {
      ValidGeometry(geometry) && Formatted(disk, SectorSize(geometry.sectCode))
    }

    method Ask() returns (yes: bool)
      modifies this`clock
    {
      yes := answers(clock);
      clock := clock + 1;
    }

    /** fdc_seek with the check of the seek bit: the arm goes to the track of the current block. */
    method Seek() returns (ok: bool)
      requires Ready()
      modifies this`clock, this`arm, this`refused
      ensures ok ==> arm == Commanded(geometry, blnr).track && refused == old(refused)
      ensures !ok ==> refused
    {
      ok := Ask();
      if ok { ok := Ask(); }
      if ok { arm := Commanded(geometry, blnr).track; } else { refused := true; }
    }

    /** fdc_recalibrate */
    method Recalibrate() returns (ok: bool)
      modifies this`clock, this`arm, this`refused, this`recals
      ensures recals == old(recals) + 1
      ensures ok ==> refused == old(refused)
      ensures !ok ==> refused
    {
      ok := Ask();
      arm, recals := 0, recals + 1;
      if !ok { refused := true; }
    }

    /** A read command delivers from its sector to the end of the side, if the arm stands on the track. */
    method IssueRead() returns (ok: bool)
      requires Ready()
      modifies this`clock, this`queue, this`refused
      ensures ok ==> refused == old(refused)
      ensures ok && arm == Commanded(geometry, blnr).track ==>
                var c := Commanded(geometry, blnr);
                queue == Side(disk, c.track, c.head, c.sector, RoomOnSide(geometry, blnr))
      ensures !ok ==> refused
    {
      var c := Commanded(geometry, blnr);
      ok := Ask();
      if !ok {
        refused := true;
      } else if arm != c.track {
        queue := [];
      } else {
        CommandedExactly(geometry, blnr);
        SideOffset(geometry, blnr);
        queue := Side(disk, c.track, c.head, c.sector, geometry.sect + 1 - c.sector);
      }
    }

    /** One turn of the byte loop: the controller has a byte, or breaks the transfer off. */
    method NextByte() returns (fault: bool, c: byte)
      modifies this`clock, this`queue, this`faults
      ensures fault ==> faults == old(faults) + 1
      ensures !fault ==> old(queue) != [] && faults == old(faults) && c == old(queue)[0] && queue == old(queue)[1..]
    {
      var yes := Ask();
      if yes && queue != [] {
        fault, c, queue := false, queue[0], queue[1..];
      } else {
        fault, c := true, 0;
        faults := faults + 1;
      }
    }

    /** The byte loop for one command. */
    method TransferBytes(buffer: array<byte>, offset: nat, len: nat) returns (fault: bool)
      requires offset + len <= buffer.Length
      modifies this`clock, this`queue, this`faults, buffer
      ensures buffer[..offset] == old(buffer[..offset]) && buffer[offset + len..] == old(buffer[offset + len..])
      ensures fault ==> faults == old(faults) + 1
      ensures !fault ==> faults == old(faults) && len <= |old(queue)| && buffer[offset..offset + len] == old(queue)[..len]
    {
      var i := 0;
      while i < len
        invariant 0 <= i <= len && i <= |old(queue)| && queue == old(queue)[i..] && faults == old(faults)
        invariant buffer[..offset] == old(buffer[..offset]) && buffer[offset + len..] == old(buffer[offset + len..])
        invariant buffer[offset..offset + i] == old(queue)[..i]
      {
        ghost var was := buffer[..];
        var c;
        fault, c := NextByte();
        if fault { return; }
        buffer[offset + i] := c;
        assert buffer[offset..offset + i + 1] == was[offset..offset + i] + [c];
        i := i + 1;
      }
      fault := false;
    }

    /** The bytes that n blocks take. */
    function BytesOf(n: nat): nat { SectorSize(geometry.sectCode) * n }

    /** One read command with its data phase: the turn from retryrw to fdc_terminate. */
    method ReadChunk(buffer: array<byte>, offset: nat, readblk: nat) returns (out: Outcome)
      requires Ready() && readblk <= RoomOnSide(geometry, blnr) && arm == Commanded(geometry, blnr).track
      requires offset + BytesOf(readblk) <= buffer.Length
      modifies this`clock, this`queue, this`faults, this`refused, buffer
      ensures var len := BytesOf(readblk);
              && buffer[..offset] == old(buffer[..offset]) && buffer[offset + len..] == old(buffer[offset + len..])
              && (out == Done ==> buffer[offset..offset + len] == Image(disk, geometry, blnr, readblk))
      ensures out != Stopped ==> refused == old(refused)
      ensures out == Stopped ==> refused
      ensures faults == old(faults) + if out == Fault then 1 else 0
    {
      var len := BytesOf(readblk);
      var ok := IssueRead();
      if !ok { return Stopped; }
      var fault := TransferBytes(buffer, offset, len);
      if fault { return Fault; }
      out := Done;
      QueueHoldsChunk(disk, geometry, blnr, readblk);
    }

    /** What fdc_read_data does about a broken transfer: it may go on with new retry counters, or give up. */
    method HandleFault(retriesrw: nat, retriescal: nat) returns (again: bool, rw: nat, cal: nat)
      requires Ready() && arm == Commanded(geometry, blnr).track
      requires retriesrw <= RW_RETRIES + 1 && retriescal <= CAL_RETRIES + 1
      modifies this`clock, this`arm, this`recals, this`refused
      ensures rw <= RW_RETRIES + 1 && cal <= CAL_RETRIES + 1
      ensures again ==>
                && 5 * cal + rw == 5 * retriescal + retriesrw + 1
                && recals == old(recals) + (cal - retriescal) && refused == old(refused)
                && arm == Commanded(geometry, blnr).track
      ensures !again ==> refused || (5 * retriescal + retriesrw == 24 && recals == old(recals) && refused == old(refused))
    {
      rw, cal := retriesrw, retriescal;
      if retriesrw <= RW_RETRIES {
        rw := retriesrw + 1;
        return true, rw, cal;
      }
      if retriescal > CAL_RETRIES { return false, rw, cal; }
      var ok := Recalibrate();
      if !ok { return false, rw, cal; }
      rw, cal := 0, retriescal + 1;
      again := Seek();
    }

    /**
     The first done blocks of a request stand in the buffer, each at its own offset, and nothing
     was written behind the request.
     */
    ghost predicate Progress(now: seq<byte>, first: seq<byte>, b0: nat, total: nat, done: nat)
      requires Ready()
    {
      && |now| == |first| && done <= total && BytesOf(done) <= BytesOf(total) <= |first|
      && now[..BytesOf(done)] == Image(disk, geometry, b0, done)
      && now[BytesOf(total)..] == first[BytesOf(total)..]
    }

    /** fdc_read_data */
    method FdcReadData(buffer: array<byte>, blocks: nat) returns (ok: bool)
      requires Ready() && BytesOf(blocks) <= buffer.Length
      modifies this, buffer
      ensures blnr >= old(blnr)
      ensures Progress(buffer[..], old(buffer[..]), old(blnr), blocks, blnr - old(blnr))
      ensures ok ==> blnr == old(blnr) + blocks
      ensures ok ==> faults - old(faults) <= 24 && recals - old(recals) <= 4 && refused == old(refused)
      ensures !ok && !refused ==> faults - old(faults) == 25 && recals - old(recals) == 4
    {
      NoProgressYet(buffer[..], blocks);
      ok := Seek();
      if !ok { return; }
      ok := ReadLoop(buffer, blocks);
    }

    /** The chunk and retry loop. */
    method ReadLoop(buffer: array<byte>, blocks: nat) returns (ok: bool)
      requires Ready() && BytesOf(blocks) <= buffer.Length
      requires arm == Commanded(geometry, blnr).track
      modifies this, buffer
      ensures blnr >= old(blnr)
      ensures Progress(buffer[..], old(buffer[..]), old(blnr), blocks, blnr - old(blnr))
      ensures ok ==> blnr == old(blnr) + blocks
      ensures ok ==> faults - old(faults) <= 24 && recals - old(recals) <= 4 && refused == old(refused)
      ensures !ok && !refused ==> faults - old(faults) == 25 && recals - old(recals) == 4
    {
      hide Image, Commanded, BytesOf, Formatted, Progress, RoomOnSide;
      ghost var first := buffer[..];
      ghost var b0 := blnr;
      var rw: nat, cal: nat, offset: nat, left: nat := 0, 0, BytesOf(0), blocks;
      NoProgressYet(buffer[..], blocks);
      var readblk: nat := Min(RoomOnSide(geometry, blnr), left);
      while true
        invariant b0 <= blnr && blnr + left == b0 + blocks && offset == BytesOf(blnr - b0)
        invariant readblk == Min(RoomOnSide(geometry, blnr), left)
        invariant arm == Commanded(geometry, blnr).track && refused == old(refused)
        invariant rw <= RW_RETRIES + 1 && cal <= CAL_RETRIES + 1
        invariant faults - old(faults) == 5 * cal + rw && recals - old(recals) == cal
        invariant Progress(buffer[..], first, b0, blocks, blnr - b0)
        decreases left + 25 - (5 * cal + rw)
      {
        ghost var was := buffer[..];
        ghost var done := blnr - b0;
        ChunkFits(was, first, b0, blocks, done, readblk);
        var out := ReadChunk(buffer, offset, readblk);
        ChunkPlaced(was, buffer[..], first, b0, blocks, done, readblk);
        if out == Stopped { return false; }
        if out == Fault {
          ok, rw, cal := HandleFault(rw, cal);
          if !ok { return; }
        } else {
          offset, blnr, left := offset + BytesOf(readblk), blnr + readblk, left - readblk;
          if left == 0 { return true; }
          SideIsUsedUp(geometry, blnr - readblk, readblk);
          readblk := Min(geometry.sect, left);
          ok := Seek();
          if !ok { return; }
        }
      }
    }

    lemma {:induction false} NoProgressYet(first: seq<byte>, total: nat)
      requires Ready() && BytesOf(total) <= |first|
      ensures Progress(first, first, blnr, total, 0) && BytesOf(0) == 0
    {
    }

    lemma {:induction false} ChunkFits(was: seq<byte>, first: seq<byte>, b0: nat, total: nat, done: nat, k: nat)
      requires Ready() && Progress(was, first, b0, total, done) && done + k <= total
      ensures BytesOf(done) + BytesOf(k) == BytesOf(done + k) <= BytesOf(total) <= |was|
    {
      hide Image;
      var size := SectorSize(geometry.sectCode);
      Distributes(size, done, k);
      MulMono(size, done + k, total);
    }

    /** After a chunk, whole or broken off, the blocks before it still stand; after a whole one it stands too. */
    lemma {:induction false} ChunkPlaced(was: seq<byte>, now: seq<byte>, first: seq<byte>, b0: nat, total: nat, done: nat, k: nat)
      requires Ready() && Progress(was, first, b0, total, done) && done + k <= total && |now| == |was|
      requires var offset, len := BytesOf(done), BytesOf(k);
               && offset + len <= |was|
               && now[..offset] == was[..offset] && now[offset + len..] == was[offset + len..]
      ensures Progress(now, first, b0, total, done)
      ensures now[BytesOf(done)..BytesOf(done) + BytesOf(k)] == Image(disk, geometry, b0 + done, k) ==>
                Progress(now, first, b0, total, done + k)
    {
      ChunkFits(was, first, b0, total, done, k);
      hide Image, BytesOf;
      var offset, len := BytesOf(done), BytesOf(k);
      ImageJoins(disk, geometry, b0, done, k);
      assert now[..offset + len] == now[..offset] + now[offset..offset + len];
      TailKept(was, now, offset + len, BytesOf(total));
    }
  }

  lemma {:induction false} TailKept(was: seq<byte>, now: seq<byte>, a: nat, b: nat)
    requires |was| == |now| && a <= b <= |was| && now[a..] == was[a..]
    ensures now[b..] == was[b..]
  {
    assert now[b..] == now[a..][b - a..];
    assert was[b..] == was[a..][b - a..];
  }

  lemma {:induction false} QueueHoldsChunk(d: Disk, g: Geometry, b: nat, k: nat)
    requires ValidGeometry(g) && Formatted(d, SectorSize(g.sectCode)) && k <= RoomOnSide(g, b)
    ensures var c := Commanded(g, b);
            var q := Side(d, c.track, c.head, c.sector, RoomOnSide(g, b));
            var len := SectorSize(g.sectCode) * k;
            0 <= len <= |q| && q[..len] == Image(d, g, b, k)
  {
    hide Commanded, SectorSize, RoomOnSide;
    var c := Commanded(g, b);
    SidePrefix(d, SectorSize(g.sectCode), c.track, c.head, c.sector, k, RoomOnSide(g, b));
    SideLength(d, SectorSize(g.sectCode), c.track, c.head, c.sector, k);
    ChunkIsImage(d, g, b, k);
  }

  /** A chunk that was not the last one ends at the end of its side. */
  lemma {:induction false} SideIsUsedUp(g: Geometry, b: nat, k: nat)
    requires ValidGeometry(g) && k == RoomOnSide(g, b)
    ensures RoomOnSide(g, b + k) == g.sect
  {
    var q := b / g.sect;
    assert b == g.sect * q + b % g.sect;
    MulMono(g.sect, q, q);
    assert b + k == g.sect * (q + 1) + 0;
    Quotient(b + k, g.sect, q + 1, 0);
  }
}

/**
 Paged EEPROM transfers over I2C: eeprom_addr, eeprom_len and eeprom_rw against chips whose address
 counter only increments within a page.
 */
module EepromPages {
  import opened Bytes
  import opened Division

  const RXTX_LEN := 128         // I2C_RXTX_LEN
  const WORD := 0x1_0000_0000

  /** CONFIG_SYS_EEPROM_PAGE_WRITE_BITS and CONFIG_SYS_I2C_EEPROM_ADDR_LEN. */
  datatype Config = Config(pageBits: nat, addrLen: nat)

  ghost predicate ValidConfig(c: Config) { c.addrLen == 1 || c.addrLen == 2 }

  function Pow2(n: nat): (r: nat)
    ensures r > 0
  {
    if n == 0 then 1 else 2 * Pow2(n - 1)
  }

  function PageSize(c: Config): (r: nat) ensures r > 0 { Pow2(c.pageBits) }

  // ---------------------------------------------------------------- chunks

  /** eeprom_len */
  function ChunkLen(c: Config, offset: nat, end: nat): (len: nat)
    requires offset < end
    ensures 0 < len <= end - offset && len <= RXTX_LEN
  {
    var room := PageSize(c) - offset % 256 % PageSize(c);
    var most := if room > RXTX_LEN then RXTX_LEN else room;
    if end - offset > most then most else end - offset
  }

  ghost predicate WithinPage(c: Config, offset: nat, len: nat) {
    offset % PageSize(c) + len <= PageSize(c)
  }

  lemma {:induction false} PowAdds(a: nat, b: nat)
    ensures Pow2(a + b) == Pow2(a) * Pow2(b)
  {
    if a > 0 {
      PowAdds(a - 1, b);
      Associates(2, Pow2(a - 1), Pow2(b));
    }
  }

  lemma {:induction false} PowTable()
    ensures Pow2(8) == 256
  {
    assert Pow2(4) == 16;
  }

  /** Pages divide the 256 bytes that the block offset counts. */
  lemma {:induction false} PageOffset(c: Config, offset: nat)
    requires c.pageBits <= 8
    ensures offset % 256 % PageSize(c) == offset % PageSize(c)
  {
    PowTable();
    PowAdds(c.pageBits, 8 - c.pageBits);
    RemainderOfMultiple(offset, PageSize(c), Pow2(8 - c.pageBits));
  }

  /** A chunk ends with the request, at 128 bytes, or at the end of its page: it is never shorter than it has to be. */
  lemma {:induction false} ChunkIsMaximal(c: Config, offset: nat, end: nat)
    requires c.pageBits <= 8 && offset < end
    ensures var len := ChunkLen(c, offset, end);
            len == end - offset || len == 128 || offset % PageSize(c) + len == PageSize(c)
  {
    hide PageSize;
    PageOffset(c, offset);
  }

  /** With pages of up to 256 bytes no chunk crosses a page; with larger ones some chunk does. */
  lemma {:induction false} ChunksStayInPageExactly(c: Config)
    ensures (forall offset: nat, end: nat | offset < end :: WithinPage(c, offset, ChunkLen(c, offset, end))) <==> c.pageBits <= 8
  {
    hide ChunkLen, WithinPage;
    if c.pageBits <= 8 {
      forall offset: nat, end: nat | offset < end ensures WithinPage(c, offset, ChunkLen(c, offset, end)) {
        ChunkInPage(c, offset, end);
      }
    } else {
      var p := PageSize(c);
      ChunkAcrossPages(c);
      assert !WithinPage(c, p - 1, ChunkLen(c, p - 1, p + 1));
    }
  }

  lemma {:induction false} ChunkInPage(c: Config, offset: nat, end: nat)
    requires c.pageBits <= 8 && offset < end
    ensures WithinPage(c, offset, ChunkLen(c, offset, end))
  {
    hide PageSize;
    PageOffset(c, offset);
  }

  /** The last byte of a large page and the first of the next go out together. */
  lemma {:induction false} ChunkAcrossPages(c: Config)
    requires c.pageBits > 8
    ensures var p := PageSize(c);
            !WithinPage(c, p - 1, ChunkLen(c, p - 1, p + 1))
  {
    hide PageSize;
    var p := PageSize(c);
    LargePage(c);
    assert (p - 1) % 256 == 255;
    SmallRemainder(255, p);
    SmallRemainder(p - 1, p);
  }

  lemma {:induction false} LargePage(c: Config)
    requires c.pageBits > 8
    ensures PageSize(c) % 256 == 0 && PageSize(c) > 256
  {
    PowTable();
    PowAdds(8, c.pageBits - 8);
  }

  /** The chunks of a request, as (offset, length). */
  function Chunks(c: Config, offset: nat, end: nat): seq<(nat, nat)>
    decreases end - offset
  {
    if offset >= end then []
    else
      var len := ChunkLen(c, offset, end);
      [(offset, len)] + Chunks(c, offset + len, end)
  }

  /** They lie back to back and make up the request. */
  lemma {:induction false} ChunksPartition(c: Config, offset: nat, end: nat)
    requires offset <= end
    ensures var s := Chunks(c, offset, end);
            && (s == [] <==> offset == end)
            && (s != [] ==> s[0].0 == offset && s[|s| - 1].0 + s[|s| - 1].1 == end)
            && (forall k :: 0 <= k < |s| ==> 0 < s[k].1 <= RXTX_LEN)
            && (forall k :: 0 <= k < |s| - 1 ==> s[k].0 + s[k].1 == s[k + 1].0)
            && (c.pageBits <= 8 ==> forall k :: 0 <= k < |s| ==> WithinPage(c, s[k].0, s[k].1))
    decreases end - offset
  {
    if offset < end {
      var len := ChunkLen(c, offset, end);
      ChunksPartition(c, offset + len, end);
      if c.pageBits <= 8 {
        ChunkInPage(c, offset, end);
      }
      var s, rest := Chunks(c, offset, end), Chunks(c, offset + len, end);
      assert s == [(offset, len)] + rest;
      forall k | 0 < k < |s| ensures s[k] == rest[k - 1] { }
    }
  }

  // ---------------------------------------------------------------- addresses

  function Or(a: nat, b: nat): nat {
    if a == 0 then b else if b == 0 then a
    else 2 * Or(a / 2, b / 2) + if a % 2 == 1 || b % 2 == 1 then 1 else 0
  }

  predicate Disjoint(a: nat, b: nat) {
    a == 0 || b == 0 || (!(a % 2 == 1 && b % 2 == 1) && Disjoint(a / 2, b / 2))
  }

  lemma {:induction false} OrIsSum(a: nat, b: nat)
    requires Disjoint(a, b)
    ensures Or(a, b) == a + b
  {
    if a > 0 && b > 0 { OrIsSum(a / 2, b / 2); }
  }

  /** A byte of the bus: the chip that answers and the address inside it. */
  datatype Cell = Cell(chip: nat, low: nat)

  function ChipSize(c: Config): nat { if c.addrLen == 1 then 0x100 else 0x1_0000 }

  /** eeprom_addr: the block number goes into the device address, the rest is the address on the wire. */
  function CellOf(c: Config, dev: nat, offset: nat): Cell {
    Cell(Or(offset / ChipSize(c) % 256, dev % 256), offset % ChipSize(c))
  }

  /** The blocks of a request do not run into the bits of the device address. */
  ghost predicate Selectable(c: Config, dev: nat, offset: nat, end: nat) {
    && dev < 256
    && forall o :: offset <= o < end ==> o / ChipSize(c) < 256 && Disjoint(o / ChipSize(c), dev)
  }

  /** A selectable offset goes to the device address plus its block number, with the rest as address in the chip. */
  lemma {:induction false} CellIsDeviceAndBlock(c: Config, dev: nat, offset: nat, end: nat, o: nat)
    requires ValidConfig(c) && Selectable(c, dev, offset, end) && offset <= o < end
    ensures c.addrLen == 1 ==> CellOf(c, dev, o) == Cell(dev + o / 0x100, o % 0x100)
    ensures c.addrLen == 2 ==> CellOf(c, dev, o) == Cell(dev + o / 0x1_0000, o % 0x1_0000)
  {
    hide Or, Disjoint;
    OrIsSum(o / ChipSize(c), dev);
  }

  lemma {:induction false} CellsDiffer(c: Config, dev: nat, offset: nat, end: nat, a: nat, b: nat)
    requires ValidConfig(c) && Selectable(c, dev, offset, end) && offset <= a < end && offset <= b < end
    ensures CellOf(c, dev, a) == CellOf(c, dev, b) <==> a == b
  {
    hide Or, Disjoint;
    var s := ChipSize(c);
    OrIsSum(a / s, dev);
    OrIsSum(b / s, dev);
    assert a == s * (a / s) + a % s;
    assert b == s * (b / s) + b % s;
  }

  // ---------------------------------------------------------------- the chips

  type Memory = Cell -> byte

  /** The address counter i bytes after it was set. */
  function Counter(c: Config, low: nat, i: nat): nat {
    RoundDown(low, PageSize(c)) + (low % PageSize(c) + i) % PageSize(c)
  }

  function Put(m: Memory, at: Cell, v: byte): Memory { (x: Cell) => if x == at then v else m(x) }

  /** What a chip does with written bytes. */
  function WriteBytes(c: Config, m: Memory, at: Cell, data: seq<byte>): Memory {
    if data == [] then m
    else
      var n := |data| - 1;
      Put(WriteBytes(c, m, at, data[..n]), Cell(at.chip, Counter(c, at.low, n)), data[n])
  }

  function ReadBytes(c: Config, m: Memory, at: Cell, n: nat): (r: seq<byte>)
    ensures |r| == n
  {
    seq<byte>(n, (i: nat) => m(Cell(at.chip, Counter(c, at.low, i))))
  }

  /** Inside a page the counter follows the offsets. */
  lemma {:induction false} CounterFollows(c: Config, dev: nat, offset: nat, len: nat, i: nat)
    requires ValidConfig(c) && c.pageBits <= 8 && WithinPage(c, offset, len) && i < len
    ensures var at := CellOf(c, dev, offset);
            Cell(at.chip, Counter(c, at.low, i)) == CellOf(c, dev, offset + i)
  {
    var p := PageSize(c);
    var k := PagesPerChip(c);
    CounterInPage(p, k, offset, len, i);
    assert ChipSize(c) == p * k;
  }

  function PagesPerChip(c: Config): (k: nat)
    requires ValidConfig(c) && c.pageBits <= 8
    ensures k > 0 && PageSize(c) * k == ChipSize(c)
  {
    PowTable();
    PowAdds(c.pageBits, 8 - c.pageBits);
    Associates(PageSize(c), Pow2(8 - c.pageBits), 256);
    if c.addrLen == 1 then Pow2(8 - c.pageBits) else Pow2(8 - c.pageBits) * 256
  }

  lemma {:induction false} CounterInPage(p: nat, k: nat, offset: nat, len: nat, i: nat)
    requires p > 0 && k > 0 && p * k > 0
    requires offset % p + len <= p && i < len
    ensures var low := offset % (p * k);
            && RoundDown(low, p) + (low % p + i) % p == (offset + i) % (p * k)
            && (offset + i) / (p * k) == offset / (p * k)
  {
    var s := p * k;
    var q, low := offset / s, offset % s;
    var a, b := low / p, low % p;
    RemainderOfMultiple(offset, p, k);
    SmallRemainder(b + i, p);
    QuotientBelow(low, p, k);
    MulMono(p, a + 1, k);
    MulMono(p, a, k);
    DivMod(low, p);
    DivMod(offset, s);
    Quotient(offset + i, s, q, p * a + (b + i));
  }

  // ---------------------------------------------------------------- whole requests

  /** Which of the successive I2C transfers fail. */
  type Faults = nat -> bool

  /** The memory after the write requests from offset to end; a failed transfer changes nothing. */
  function WriteAll(c: Config, m: Memory, fails: Faults, op: nat, dev: nat, offset: nat, end: nat, data: seq<byte>): Memory
    requires end - offset <= |data|
    decreases end - offset
  {
    if offset >= end then m
    else
      var len := ChunkLen(c, offset, end);
      var m' := if fails(op) then m else WriteBytes(c, m, CellOf(c, dev, offset), data[..len]);
      WriteAll(c, m', fails, op + 1, dev, offset + len, end, data[len..])
  }

  /** The buffer after the read requests. */
  function ReadAll(c: Config, m: Memory, fails: Faults, op: nat, dev: nat, offset: nat, end: nat, data: seq<byte>): (r: seq<byte>)
    requires end - offset <= |data|
    ensures |r| == |data|
    decreases end - offset
  {
    if offset >= end then data
    else
      var len := ChunkLen(c, offset, end);
      (if fails(op) then data[..len] else ReadBytes(c, m, CellOf(c, dev, offset), len))
      + ReadAll(c, m, fails, op + 1, dev, offset + len, end, data[len..])
  }

  /** The return code: only the last transfer's survives. */
  function Code(c: Config, fails: Faults, op: nat, offset: nat, end: nat, code: nat): nat
    decreases end - offset
  {
    if offset >= end then code
    else Code(c, fails, op + 1, offset + ChunkLen(c, offset, end), end, if fails(op) then 1 else 0)
  }

  // ---------------------------------------------------------------- the flat view

  function WriteFlat(c: Config, m: Memory, dev: nat, offset: nat, data: seq<byte>): Memory {
    if data == [] then m
    else
      var n := |data| - 1;
      Put(WriteFlat(c, m, dev, offset, data[..n]), CellOf(c, dev, offset + n), data[n])
  }

  function ReadFlat(c: Config, m: Memory, dev: nat, offset: nat, n: nat): (r: seq<byte>)
    ensures |r| == n
  {
    if n == 0 then [] else ReadFlat(c, m, dev, offset, n - 1) + [m(CellOf(c, dev, offset + (n - 1)))]
  }

  /** The cells of the offsets from offset to end. */
  ghost predicate Touched(c: Config, dev: nat, offset: nat, end: nat, x: Cell) {
    exists o :: offset <= o < end && x == CellOf(c, dev, o)
  }

  lemma {:induction false} WriteFlatHits(c: Config, m: Memory, dev: nat, offset: nat, data: seq<byte>, o: nat)
    requires ValidConfig(c) && Selectable(c, dev, offset, offset + |data|) && offset <= o < offset + |data|
    ensures WriteFlat(c, m, dev, offset, data)(CellOf(c, dev, o)) == data[o - offset]
  {
    hide CellOf;
    var n := |data| - 1;
    CellsDiffer(c, dev, offset, offset + |data|, o, offset + n);
    if o < offset + n { WriteFlatHits(c, m, dev, offset, data[..n], o); }
  }

  lemma {:induction false} WriteFlatMisses(c: Config, m: Memory, dev: nat, offset: nat, data: seq<byte>, x: Cell)
    requires !Touched(c, dev, offset, offset + |data|, x)
    ensures WriteFlat(c, m, dev, offset, data)(x) == m(x)
  {
    if data != [] {
      hide CellOf;
      var n := |data| - 1;
      assert x != CellOf(c, dev, offset + n);
      WriteFlatMisses(c, m, dev, offset, data[..n], x);
    }
  }

  lemma {:induction false} ReadFlatMeans(c: Config, m: Memory, dev: nat, offset: nat, n: nat, i: nat)
    requires i < n
    ensures ReadFlat(c, m, dev, offset, n)[i] == m(CellOf(c, dev, offset + i))
  {
    if i < n - 1 { ReadFlatMeans(c, m, dev, offset, n - 1, i); }
  }

  lemma {:induction false} WriteFlatJoins(c: Config, m: Memory, dev: nat, offset: nat, a: seq<byte>, b: seq<byte>)
    ensures WriteFlat(c, WriteFlat(c, m, dev, offset, a), dev, offset + |a|, b) == WriteFlat(c, m, dev, offset, a + b)
  {
    if b == [] {
      assert a + b == a;
    } else {
      var n := |b| - 1;
      WriteFlatJoins(c, m, dev, offset, a, b[..n]);
      assert (a + b)[..|a| + n] == a + b[..n];
      assert offset + |a| + n == offset + (|a + b| - 1);
    }
  }

  lemma {:induction false} ReadFlatJoins(c: Config, m: Memory, dev: nat, offset: nat, a: nat, b: nat)
    ensures ReadFlat(c, m, dev, offset, a) + ReadFlat(c, m, dev, offset + a, b) == ReadFlat(c, m, dev, offset, a + b)
  {
    if b > 0 {
      ReadFlatJoins(c, m, dev, offset, a, b - 1);
      assert offset + a + (b - 1) == offset + (a + b - 1);
    }
  }

  /** A chunk inside a page is a flat write, whatever the chip's counter does at the page's end. */
  lemma {:induction false} ChunkWritesFlat(c: Config, m: Memory, dev: nat, offset: nat, data: seq<byte>)
    requires ValidConfig(c) && c.pageBits <= 8 && WithinPage(c, offset, |data|)
    ensures WriteBytes(c, m, CellOf(c, dev, offset), data) == WriteFlat(c, m, dev, offset, data)
  {
    if data != [] {
      hide CellOf, Counter;
      var n := |data| - 1;
      ChunkWritesFlat(c, m, dev, offset, data[..n]);
      CounterFollows(c, dev, offset, |data|, n);
    }
  }

  lemma {:induction false} ChunkReadsFlat(c: Config, m: Memory, dev: nat, offset: nat, len: nat)
    requires ValidConfig(c) && c.pageBits <= 8 && WithinPage(c, offset, len)
    ensures ReadBytes(c, m, CellOf(c, dev, offset), len) == ReadFlat(c, m, dev, offset, len)
  {
    hide CellOf, Counter, ReadFlat;
    forall i | 0 <= i < len ensures
      ReadBytes(c, m, CellOf(c, dev, offset), len)[i] == ReadFlat(c, m, dev, offset, len)[i]
    {
      CounterFollows(c, dev, offset, len, i);
      ReadFlatMeans(c, m, dev, offset, len, i);
    }
  }

  /** Without failures the transfers of a request are one flat transfer. */
  lemma {:induction false} WritesAreFlat(c: Config, m: Memory, fails: Faults, op: nat, dev: nat, offset: nat, end: nat, data: seq<byte>)
    requires ValidConfig(c) && c.pageBits <= 8 && offset <= end && |data| == end - offset
    requires forall k: nat :: !fails(k)
    ensures WriteAll(c, m, fails, op, dev, offset, end, data) == WriteFlat(c, m, dev, offset, data)
    decreases end - offset
  {
    hide CellOf, ChunkLen, WriteBytes, WriteFlat, WithinPage;
    if offset < end {
      var len := ChunkLen(c, offset, end);
      ChunkInPage(c, offset, end);
      ChunkWritesFlat(c, m, dev, offset, data[..len]);
      var m' := WriteFlat(c, m, dev, offset, data[..len]);
      assert WriteAll(c, m, fails, op, dev, offset, end, data)
          == WriteAll(c, m', fails, op + 1, dev, offset + len, end, data[len..]);
      WritesAreFlat(c, m', fails, op + 1, dev, offset + len, end, data[len..]);
      WriteFlatJoins(c, m, dev, offset, data[..len], data[len..]);
      assert data[..len] + data[len..] == data;
    } else {
      WriteFlatNothing(c, m, dev, offset, data);
    }
  }

  lemma {:induction false} WriteFlatNothing(c: Config, m: Memory, dev: nat, offset: nat, data: seq<byte>)
    requires data == []
    ensures WriteFlat(c, m, dev, offset, data) == m
  {
  }

  lemma {:induction false} ReadsAreFlat(c: Config, m: Memory, fails: Faults, op: nat, dev: nat, offset: nat, end: nat, data: seq<byte>)
    requires ValidConfig(c) && c.pageBits <= 8 && offset <= end && |data| == end - offset
    requires forall k: nat :: !fails(k)
    ensures ReadAll(c, m, fails, op, dev, offset, end, data) == ReadFlat(c, m, dev, offset, |data|)
    decreases end - offset
  {
    hide CellOf, ChunkLen, ReadBytes, WithinPage;
    if offset < end {
      hide ReadFlat;
      var len := ChunkLen(c, offset, end);
      ChunkInPage(c, offset, end);
      ChunkReadsFlat(c, m, dev, offset, len);
      ReadsAreFlat(c, m, fails, op + 1, dev, offset + len, end, data[len..]);
      ReadFlatJoins(c, m, dev, offset, len, |data| - len);
    } else {
      assert data == [];
    }
  }

  /** What was written is read back, and no other cell changed. */
  lemma {:induction false} ReadAfterWrite(c: Config, m: Memory, fails: Faults, op: nat, op': nat, dev: nat, offset: nat, data: seq<byte>, blank: seq<byte>)
    requires ValidConfig(c) && c.pageBits <= 8 && Selectable(c, dev, offset, offset + |data|)
    requires |blank| == |data| && forall k: nat :: !fails(k)
    ensures var end := offset + |data|;
            var w := WriteAll(c, m, fails, op, dev, offset, end, data);
            && ReadAll(c, w, fails, op', dev, offset, end, blank) == data
            && forall x: Cell :: !Touched(c, dev, offset, end, x) ==> w(x) == m(x)
  {
    hide CellOf, WriteAll, ReadAll, WriteFlat, ReadFlat, Touched, Selectable;
    var end := offset + |data|;
    var w := WriteFlat(c, m, dev, offset, data);
    WritesAreFlat(c, m, fails, op, dev, offset, end, data);
    ReadsAreFlat(c, w, fails, op', dev, offset, end, blank);
    forall i | 0 <= i < |data| ensures ReadFlat(c, w, dev, offset, |data|)[i] == data[i] {
      ReadFlatMeans(c, w, dev, offset, |data|, i);
      WriteFlatHits(c, m, dev, offset, data, offset + i);
    }
    forall x: Cell | !Touched(c, dev, offset, end, x) ensures w(x) == m(x) {
      WriteFlatMisses(c, m, dev, offset, data, x);
    }
  }

  // ---------------------------------------------------------------- transfers that fail

  /** Offset o belongs to chunk k of the request. */
  ghost predicate InChunk(c: Config, offset: nat, end: nat, k: nat, o: nat) {
    var s := Chunks(c, offset, end);
    k < |s| && s[k].0 <= o < s[k].0 + s[k].1
  }

  lemma {:induction false} InFirstChunk(c: Config, offset: nat, end: nat, k: nat, o: nat)
    requires InChunk(c, offset, end, k, o)
    ensures offset <= o < end
    ensures var len := ChunkLen(c, offset, end);
            if k == 0 then o < offset + len else offset + len <= o && InChunk(c, offset + len, end, k - 1, o)
  {
    hide ChunkLen;
    assert offset < end;
    if k > 0 {
      ChunkBehind(c, offset + ChunkLen(c, offset, end), end, k - 1);
    }
  }

  lemma {:induction false} ChunkBehind(c: Config, offset: nat, end: nat, k: nat)
    requires k < |Chunks(c, offset, end)|
    ensures var s := Chunks(c, offset, end);
            offset <= s[k].0 && s[k].0 + s[k].1 <= end
    decreases k
  {
    hide ChunkLen;
    if k > 0 { ChunkBehind(c, offset + ChunkLen(c, offset, end), end, k - 1); }
  }

  /** The first transfer of a write, seen at one offset of the request. */
  lemma {:induction false} FirstWrite(c: Config, m: Memory, dev: nat, offset: nat, end: nat, data: seq<byte>, o: nat)
    requires ValidConfig(c) && c.pageBits <= 8 && offset <= o < end && end - offset <= |data|
    requires Selectable(c, dev, offset, end)
    ensures var len := ChunkLen(c, offset, end);
            WriteBytes(c, m, CellOf(c, dev, offset), data[..len])(CellOf(c, dev, o))
            == if o < offset + len then data[o - offset] else m(CellOf(c, dev, o))
  {
    hide CellOf, ChunkLen, WriteBytes, WriteFlat, Disjoint;
    var len := ChunkLen(c, offset, end);
    ChunkInPage(c, offset, end);
    ChunkWritesFlat(c, m, dev, offset, data[..len]);
    if o < offset + len {
      WriteFlatHits(c, m, dev, offset, data[..len], o);
    } else {
      forall p | offset <= p < offset + len ensures CellOf(c, dev, o) != CellOf(c, dev, p) {
        CellsDiffer(c, dev, offset, end, o, p);
      }
      WriteFlatMisses(c, m, dev, offset, data[..len], CellOf(c, dev, o));
    }
  }

  /** Whatever fails, the transfers of a range leave the cells of offsets before it alone. */
  lemma {:induction false} WritesStayBehind(c: Config, m: Memory, fails: Faults, op: nat, dev: nat, first: nat, offset: nat, end: nat, data: seq<byte>, o: nat)
    requires ValidConfig(c) && c.pageBits <= 8 && Selectable(c, dev, first, end)
    requires first <= o < offset && o < end && end - offset <= |data|
    ensures WriteAll(c, m, fails, op, dev, offset, end, data)(CellOf(c, dev, o)) == m(CellOf(c, dev, o))
    decreases end - offset
  {
    hide CellOf, ChunkLen, WriteBytes, WriteFlat, Disjoint, WithinPage, Touched;
    if offset < end {
      var len := ChunkLen(c, offset, end);
      ChunkInPage(c, offset, end);
      ChunkWritesFlat(c, m, dev, offset, data[..len]);
      NotTouched(c, dev, first, offset, offset + len, end, o);
      WriteFlatMisses(c, m, dev, offset, data[..len], CellOf(c, dev, o));
      var m' := if fails(op) then m else WriteBytes(c, m, CellOf(c, dev, offset), data[..len]);
      WritesStayBehind(c, m', fails, op + 1, dev, first, offset + len, end, data[len..], o);
    }
  }

  lemma {:induction false} NotTouched(c: Config, dev: nat, first: nat, offset: nat, last: nat, end: nat, o: nat)
    requires ValidConfig(c) && Selectable(c, dev, first, end) && first <= o < offset && last <= end && o < end
    ensures !Touched(c, dev, offset, last, CellOf(c, dev, o))
  {
    hide CellOf, Selectable;
    forall p | offset <= p < last ensures CellOf(c, dev, o) != CellOf(c, dev, p) {
      CellsDiffer(c, dev, first, end, o, p);
    }
  }

  /** A failed transfer leaves its own chunk as it was, and every other chunk is still written. */
  lemma {:induction false} FaultyWrite(c: Config, m: Memory, fails: Faults, op: nat, dev: nat, offset: nat, end: nat, data: seq<byte>, k: nat, o: nat)
    requires ValidConfig(c) && c.pageBits <= 8 && Selectable(c, dev, offset, end)
    requires end - offset <= |data| && InChunk(c, offset, end, k, o)
    ensures offset <= o < end
    ensures WriteAll(c, m, fails, op, dev, offset, end, data)(CellOf(c, dev, o))
         == if fails(op + k) then m(CellOf(c, dev, o)) else data[o - offset]
    decreases k
  {
    hide CellOf, ChunkLen, WriteBytes, WriteFlat, Disjoint, InChunk, ValidConfig;
    InFirstChunk(c, offset, end, k, o);
    FirstWrite(c, m, dev, offset, end, data, o);
    var len := ChunkLen(c, offset, end);
    var m' := if fails(op) then m else WriteBytes(c, m, CellOf(c, dev, offset), data[..len]);
    if k == 0 {
      WritesStayBehind(c, m', fails, op + 1, dev, offset, offset + len, end, data[len..], o);
    } else {
      FaultyWrite(c, m', fails, op + 1, dev, offset + len, end, data[len..], k - 1, o);
    }
  }

  /** The same for reads: the buffer keeps what it held where a transfer failed. */
  lemma {:induction false} FaultyRead(c: Config, m: Memory, fails: Faults, op: nat, dev: nat, offset: nat, end: nat, data: seq<byte>, k: nat, o: nat)
    requires ValidConfig(c) && c.pageBits <= 8 && end - offset <= |data| && InChunk(c, offset, end, k, o)
    ensures offset <= o < end
    ensures ReadAll(c, m, fails, op, dev, offset, end, data)[o - offset]
         == if fails(op + k) then data[o - offset] else m(CellOf(c, dev, o))
    decreases k
  {
    hide CellOf, ChunkLen, ReadBytes, ReadFlat, InChunk, ValidConfig, ReadAll;
    InFirstChunk(c, offset, end, k, o);
    ReadAllStep(c, m, fails, op, dev, offset, end, data);
    var len := ChunkLen(c, offset, end);
    if k == 0 {
      ChunkInPage(c, offset, end);
      ChunkReadsFlat(c, m, dev, offset, len);
      ReadFlatMeans(c, m, dev, offset, len, o - offset);
    } else {
      FaultyRead(c, m, fails, op + 1, dev, offset + len, end, data[len..], k - 1, o);
    }
  }

  // ---------------------------------------------------------------- the return code

  ghost predicate NoneFails(c: Config, fails: Faults, op: nat, offset: nat, end: nat) {
    forall k: nat :: op <= k < op + |Chunks(c, offset, end)| ==> !fails(k)
  }

  lemma {:induction false} CodeIsLast(c: Config, fails: Faults, op: nat, offset: nat, end: nat, code: nat)
    requires offset < end
    ensures Chunks(c, offset, end) != []
    ensures Code(c, fails, op, offset, end, code) == if fails(op + |Chunks(c, offset, end)| - 1) then 1 else 0
    decreases end - offset
  {
    var len := ChunkLen(c, offset, end);
    if offset + len < end {
      CodeIsLast(c, fails, op + 1, offset + len, end, if fails(op) then 1 else 0);
    } else {
      assert Chunks(c, offset + len, end) == [];
    }
  }

  /** The return code speaks for the whole request exactly when one transfer serves it. */
  lemma {:induction false} CodeTellsExactly(c: Config, op: nat, offset: nat, end: nat)
    ensures (forall fails: Faults :: Code(c, fails, op, offset, end, 0) == 0 ==> NoneFails(c, fails, op, offset, end))
            <==> offset >= end || ChunkLen(c, offset, end) == end - offset
  {
    hide ChunkLen;
    if offset < end {
      var len := ChunkLen(c, offset, end);
      var n := |Chunks(c, offset, end)|;
      if len == end - offset {
        assert Chunks(c, offset + len, end) == [];
        forall fails: Faults | Code(c, fails, op, offset, end, 0) == 0 ensures NoneFails(c, fails, op, offset, end) {
          CodeIsLast(c, fails, op, offset, end, 0);
        }
      } else {
        ChunksPartition(c, offset + len, end);
        var fails: Faults := (k: nat) => k == op;
        CodeIsLast(c, fails, op, offset, end, 0);
        assert fails(op);
        assert Code(c, fails, op, offset, end, 0) == 0 && !NoneFails(c, fails, op, offset, end);
      }
    }
  }

  lemma {:induction false} CodeOfSuccess(c: Config, fails: Faults, op: nat, offset: nat, end: nat)
    requires forall k: nat :: !fails(k)
    ensures Code(c, fails, op, offset, end, 0) == 0
  {
    if offset < end { CodeIsLast(c, fails, op, offset, end, 0); }
  }

  /**
   A request whose end does not fit 32 bits transfers nothing and still reports success; every
   other one transfers its whole range.
   */
  lemma {:induction false} OverflowTransfersNothing(c: Config, fails: Faults, op: nat, start: nat, cnt: nat)
    requires start < WORD && cnt < WORD
    ensures var s := Chunks(c, start, (start + cnt) % WORD);
            && (s == [] <==> cnt == 0 || start + cnt >= WORD)
            && (s == [] ==> Code(c, fails, op, start, (start + cnt) % WORD, 0) == 0)
            && (s != [] ==> s[0].0 == start && s[|s| - 1].0 + s[|s| - 1].1 == start + cnt)
  {
    var end := (start + cnt) % WORD;
    if start + cnt < WORD {
      assert end == start + cnt;
      hide Chunks;
      ChunksPartition(c, start, end);
    } else {
      assert end < start;
    }
  }

  // ---------------------------------------------------------------- the code

  class Eeprom {
    const config: Config
    const fails: Faults
    var cells: Memory
    var ops: nat

    constructor (config: Config, fails: Faults, cells: Memory)
      ensures this.config == config && this.fails == fails && this.cells == cells && ops == 0
    {
      this.config, this.fails, this.cells := config, fails, cells;
      ops := 0;
    }

    /** eeprom_rw_block: one I2C transfer between the buffer at pos and the chip. */
    method RwBlock(dev: nat, offset: nat, buffer: array<byte>, pos: nat, len: nat, read: bool) returns (code: nat)
      requires pos + len <= buffer.Length
      modifies this, buffer
      ensures ops == old(ops) + 1 && code == (if fails(old(ops)) then 1 else 0)
      ensures cells == if read || fails(old(ops)) then old(cells)
                       else WriteBytes(config, old(cells), CellOf(config, dev, offset), old(buffer[pos..pos + len]))
      ensures buffer[..] == if !read || fails(old(ops)) then old(buffer[..])
                            else old(buffer[..pos]) + ReadBytes(config, old(cells), CellOf(config, dev, offset), len)
                                 + old(buffer[pos + len..])
    {
      var at := CellOf(config, dev, offset);
      var failed := fails(ops);
      ops := ops + 1;
      if failed { return 1; }
      if read {
        var data := ReadBytes(config, cells, at, len);
        forall i | 0 <= i < len { buffer[pos + i] := data[i]; }
      } else {
        cells := WriteBytes(config, cells, at, buffer[pos..pos + len]);
      }
      code := 0;
    }

    /** eeprom_rw; the end of the request is computed in 32 bits. */
    method EepromRw(dev: nat, start: nat, buffer: array<byte>, cnt: nat, read: bool) returns (code: nat)
      requires start < WORD && cnt < WORD && cnt <= buffer.Length
      modifies this, buffer
      ensures var end := (start + cnt) % WORD;
              && code == Code(config, fails, old(ops), start, end, 0)
              && end - start <= cnt
              && cells == (if read then old(cells)
                           else WriteAll(config, old(cells), fails, old(ops), dev, start, end, old(buffer[..])))
              && buffer[..] == (if read then ReadAll(config, cells, fails, old(ops), dev, start, end, old(buffer[..]))
                                else old(buffer[..]))
    {
      hide Code, WriteAll, ReadAll, CellOf, ChunkLen, WriteBytes, ReadBytes;
      EndFits(start, cnt);
      var end: nat, offset: nat, pos: nat := (start + cnt) % WORD, start, 0;
      code := 0;
      ghost var all := buffer[..];
      assert all[0..] == all && all[..0] == [];
      ghost var written := WriteAll(config, cells, fails, ops, dev, start, end, all);
      ghost var fetched := ReadAll(config, cells, fails, ops, dev, start, end, all);
      while offset < end
        invariant offset == start + pos && pos <= cnt && end - offset <= cnt - pos
        invariant Code(config, fails, ops, offset, end, code) == Code(config, fails, old(ops), start, end, 0)
        invariant !read ==> buffer[..] == all && WriteAll(config, cells, fails, ops, dev, offset, end, all[pos..]) == written
        invariant read ==> cells == old(cells)
        invariant read ==> buffer[..][..pos] + ReadAll(config, cells, fails, ops, dev, offset, end, buffer[..][pos..]) == fetched
        decreases end - offset
      {
        var len := ChunkLen(config, offset, end);
        ghost var was, mem, op := buffer[..], cells, ops;
        CodeStep(config, fails, ops, offset, end, code);
        WriteStep(config, cells, fails, ops, dev, offset, end, was, pos);
        code := RwBlock(dev, offset, buffer, pos, len, read);
        if read { ReadStep(config, mem, fails, op, dev, offset, end, was, buffer[..], pos); }
        pos, offset := pos + len, offset + len;
      }
      TransferEnds(config, cells, fails, ops, dev, offset, end, buffer[..], pos, code);
    }
  }

  lemma {:induction false} EndFits(start: nat, cnt: nat)
    requires start < WORD && cnt < WORD
    ensures (start + cnt) % WORD - start <= cnt
  {
  }

  lemma {:induction false} CodeStep(c: Config, fails: Faults, op: nat, offset: nat, end: nat, code: nat)
    requires offset < end
    ensures Code(c, fails, op, offset, end, code)
         == Code(c, fails, op + 1, offset + ChunkLen(c, offset, end), end, if fails(op) then 1 else 0)
  {
  }

  lemma {:induction false} WriteStep(c: Config, m: Memory, fails: Faults, op: nat, dev: nat, offset: nat, end: nat, all: seq<byte>, pos: nat)
    requires offset < end && pos <= |all| && end - offset <= |all| - pos
    ensures var len := ChunkLen(c, offset, end);
            var m' := if fails(op) then m else WriteBytes(c, m, CellOf(c, dev, offset), all[pos..pos + len]);
            WriteAll(c, m, fails, op, dev, offset, end, all[pos..])
            == WriteAll(c, m', fails, op + 1, dev, offset + len, end, all[pos + len..])
  {
    hide ChunkLen, WriteBytes, CellOf;
    var len := ChunkLen(c, offset, end);
    assert all[pos..][..len] == all[pos..pos + len];
    assert all[pos..][len..] == all[pos + len..];
  }

  lemma {:induction false} ReadStep(c: Config, m: Memory, fails: Faults, op: nat, dev: nat, offset: nat, end: nat, was: seq<byte>, now: seq<byte>, pos: nat)
    requires offset < end && pos <= |was| && end - offset <= |was| - pos
    requires var len := ChunkLen(c, offset, end);
             now == if fails(op) then was
                    else was[..pos] + ReadBytes(c, m, CellOf(c, dev, offset), len) + was[pos + len..]
    ensures var len := ChunkLen(c, offset, end);
            && |now| == |was|
            && was[..pos] + ReadAll(c, m, fails, op, dev, offset, end, was[pos..])
               == now[..pos + len] + ReadAll(c, m, fails, op + 1, dev, offset + len, end, now[pos + len..])
  {
    hide ReadAll, ChunkLen, ReadBytes, CellOf;
    var len := ChunkLen(c, offset, end);
    ReadAllStep(c, m, fails, op, dev, offset, end, was[pos..]);
    var tail := ReadAll(c, m, fails, op + 1, dev, offset + len, end, was[pos + len..]);
    SliceOfTail(was, pos, len);
    if fails(op) {
      SplitBuffer(was, pos, was[pos..pos + len], tail);
    } else {
      SplitBuffer(now, pos, ReadBytes(c, m, CellOf(c, dev, offset), len), tail);
      assert now[..pos] == was[..pos] && now[pos + len..] == was[pos + len..];
    }
  }

  lemma {:induction false} ReadAllStep(c: Config, m: Memory, fails: Faults, op: nat, dev: nat, offset: nat, end: nat, data: seq<byte>)
    requires offset < end && end - offset <= |data|
    ensures var len := ChunkLen(c, offset, end);
            ReadAll(c, m, fails, op, dev, offset, end, data)
            == (if fails(op) then data[..len] else ReadBytes(c, m, CellOf(c, dev, offset), len))
               + ReadAll(c, m, fails, op + 1, dev, offset + len, end, data[len..])
  {
  }

  lemma {:induction false} SliceOfTail(s: seq<byte>, pos: nat, len: nat)
    requires pos + len <= |s|
    ensures s[pos..][..len] == s[pos..pos + len] && s[pos..][len..] == s[pos + len..]
  {
  }

  lemma {:induction false} SplitBuffer(s: seq<byte>, pos: nat, head: seq<byte>, tail: seq<byte>)
    requires pos + |head| <= |s| && s[pos..pos + |head|] == head
    ensures s[..pos] + (head + tail) == s[..pos + |head|] + tail
  {
    assert s[..pos + |head|] == s[..pos] + head;
  }

  lemma {:induction false} TransferEnds(c: Config, m: Memory, fails: Faults, op: nat, dev: nat, offset: nat, end: nat, all: seq<byte>, pos: nat, code: nat)
    requires offset >= end && pos <= |all|
    ensures Code(c, fails, op, offset, end, code) == code
    ensures WriteAll(c, m, fails, op, dev, offset, end, all[pos..]) == m
    ensures all[..pos] + ReadAll(c, m, fails, op, dev, offset, end, all[pos..]) == all
  {
  }

  /** eeprom_write and eeprom_read of the same range, when no transfer fails. */
  method WriteThenRead(e: Eeprom, dev: nat, start: nat, buffer: array<byte>, cnt: nat) returns (code: nat, back: array<byte>)
    requires ValidConfig(e.config) && e.config.pageBits <= 8
    requires start + cnt < WORD && cnt == buffer.Length && Selectable(e.config, dev, start, start + cnt)
    requires forall k: nat :: !e.fails(k)
    modifies e, buffer
    ensures back[..] == buffer[..] == old(buffer[..]) && code == 0
    ensures forall x: Cell :: !Touched(e.config, dev, start, start + cnt, x) ==> e.cells(x) == old(e.cells)(x)
  {
    hide WriteAll, ReadAll, Code, Touched, CellOf;
    back := new byte[cnt](_ => 0);
    ghost var data, blank := buffer[..], back[..];
    ghost var before, op := e.cells, e.ops;
    code := e.EepromRw(dev, start, buffer, cnt, false);
    ghost var op' := e.ops;
    code := e.EepromRw(dev, start, back, cnt, true);
    ReadAfterWrite(e.config, before, e.fails, op, op', dev, start, data, blank);
    CodeOfSuccess(e.config, e.fails, op', start, start + cnt);
  }
}

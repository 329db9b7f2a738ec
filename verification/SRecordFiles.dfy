/**
 Whole S-Record files for load_serial: lines of any record type in any order, text without a record
 between them, either line end, and the three ways in which a transfer is over.
 */
module SRecordFiles {
  import opened Bytes
  import opened SRecord
  import opened SRecordFormat
  import opened SerialRecords
  import opened SerialLines

  // ---------------------------------------------------------------- broken records

  /** The bytes behind the count: as many as it says, or at least address and checksum. */
  function Announced(v: char, count: nat): nat {
    if v == '5' then 3 else if count <= Width(v) then Width(v) + 1 else count
  }

  /** The line spells a whole record behind the S at p. */
  ghost predicate Whole(line: string, p: nat, c: byte, f: seq<byte>) {
    && p + 4 + 2 * |f| <= |line| && Width(line[p + 1]) > 0 && |f| == Announced(line[p + 1], c)
    && Spells(line[p + 2..p + 4], [c]) && Spells(line[p + 4..p + 4 + 2 * |f|], f)
  }

  lemma {:induction false} WholeIsRead(line: string, p: nat, c: byte, f: seq<byte>)
    requires p + 1 < |line|
    ensures Whole(line, p, c, f) <==>
              && KnownType(line[p + 1]) && Hex2(line, p + 2) == c
              && |f| == AddrLen(line[p + 1]) + DataLen(line[p + 1], c) + 1
              && HexBytes(line, p + 4, |f|) == Some(f)
  {
    TablesAgree(line[p + 1]);
    hide Hex2, Spells, Width, HexBytes, KnownType, AddrLen;
    ReadsExactly(line, p + 2, [c]);
    LastByte(line, p + 2, c);
    ReadsExactly(line, p + 4, f);
  }

  /** A line with an S is refused for its form exactly when it spells no whole record of a known type. */
  lemma {:induction false} RefusedExactly(line: string, p: nat)
    requires p + 1 < |line| && line[p] == 'S' && forall k :: 0 <= k < p ==> line[k] != 'S'
    ensures Decode(line) == NoSRecord || Decode(line) == BadType <==> !exists c: byte, f: seq<byte> :: Whole(line, p, c, f)
  {
    hide AfterS, Hex2, HexBytes, Whole, Sum, BigEndian, KnownType;
    FirstS(line, 0, p);
    var v, n := line[p + 1], Hex2(line, p + 2);
    if c: byte, f: seq<byte> :| Whole(line, p, c, f) {
      WholeIsRead(line, p, c, f);
    } else if n >= 0 && KnownType(v) {
      var k := AddrLen(v) + DataLen(v, n) + 1;
      var c: byte := n;
      if HexBytes(line, p + 4, k).Some? {
        WholeIsRead(line, p, c, HexBytes(line, p + 4, k).value);
        assert false;
      }
    }
  }

  // ---------------------------------------------------------------- files

  /** One line of a file and its line end. */
  datatype Item =
    | Note(text: string, end: char)
    | Rec(text: string, end: char, before: string, v: char, addr: nat, data: seq<byte>, check: byte)
    | Broken(text: string, end: char, p: nat)

  /** Bytes of the record that its checksum covers, and the checksum. */
  ghost function Fields(it: Item): seq<byte>
    requires it.Rec? && Width(it.v) + |it.data| + 1 < 256 && Fits(it.addr, Width(it.v))
  {
    [Width(it.v) + |it.data| + 1] + AddressField(it.addr, Width(it.v)) + it.data + [it.check]
  }

  ghost predicate Fits(addr: nat, width: nat) {
    2 <= width <= 4 && addr < (if width == 2 then 0x1_0000 else if width == 3 then 0x100_0000 else 0x1_0000_0000)
  }

  /** The line is what its item says. */
  ghost predicate Written(it: Item) {
    && |it.text| < 516 && AllPlain(it.text) && (it.end == '\r' || it.end == '\n')
    && match it
       case Note(text, _) => 'S' !in text
       case Rec(text, _, before, v, addr, data, check) =>
         && Width(v) + |data| + 1 < 256 && (v == '5' ==> data == []) && Fits(addr, Width(v))
         && Holds(text, before, v, Width(v) + |data| + 1, AddressField(addr, Width(v)), data, check)
       case Broken(text, _, p) =>
         && p + 1 < |text| && text[p] == 'S' && (forall k :: 0 <= k < p ==> text[k] != 'S')
         && !exists c: byte, f: seq<byte> :: Whole(text, p, c, f)
  }

  ghost predicate SumsUp(it: Item)
    requires Written(it) && it.Rec?
  {
    Sum(Fields(it)) % 256 == 255
  }

  /** Lines after which the transfer goes on. */
  ghost predicate GoesOn(it: Item)
    requires Written(it)
  {
    it.Note? || (it.Rec? && SumsUp(it) && it.v in {'0', '1', '2', '3', '5'})
  }

  /** What a line loads, and where, in 32-bit addresses. */
  ghost function Payload(it: Item, offset: int): seq<(nat, seq<byte>)> {
    if it.Rec? && it.v in {'1', '2', '3'} then [((it.addr + offset) % 0x1_0000_0000, it.data)] else []
  }

  function FileText(items: seq<Item>): string {
    if items == [] then "" else FileText(items[..|items| - 1]) + (items[|items| - 1].text + [items[|items| - 1].end])
  }

  ghost function Payloads(items: seq<Item>, offset: int): seq<(nat, seq<byte>)> {
    if items == [] then [] else Payloads(items[..|items| - 1], offset) + Payload(items[|items| - 1], offset)
  }

  ghost predicate AllGoOn(items: seq<Item>) {
    forall k :: 0 <= k < |items| ==> Written(items[k]) && GoesOn(items[k])
  }

  lemma {:induction false} ItemDecodes(it: Item)
    requires Written(it)
    ensures it.Note? ==> Decode(it.text) == Empty
    ensures it.Broken? ==> Decode(it.text) == NoSRecord || Decode(it.text) == BadType
    ensures it.Rec? && !SumsUp(it) ==> Decode(it.text) == BadChecksum
    ensures it.Rec? && SumsUp(it) ==>
              var k := if it.v == '0' then Start else if it.v == '5' then Count else if it.v in {'1', '2', '3'} then Data else End;
              Decode(it.text) == Record(k, it.addr, |it.data|, it.data)
  {
    hide Decode, Holds, Sum, Whole;
    match it
    case Note(text, _) => NoRecordAtAll(text);
    case Broken(text, _, p) => RefusedExactly(text, p);
    case Rec(text, _, before, v, addr, data, check) =>
      var k := if v == '0' then Start else if v == '5' then Count else if v in {'1', '2', '3'} then Data else End;
      KindOfType(v, k);
      EveryRecordDecodes(text, before, v, addr, data, check, k);
  }

  lemma {:induction false} KindOfType(v: char, k: Kind)
    requires Width(v) > 0
    requires k == if v == '0' then Start else if v == '5' then Count else if v in {'1', '2', '3'} then Data else End
    ensures KindIs(v, k)
  {
  }

  lemma {:induction false} ItemIsRead(input: string, pos: nat, it: Item)
    requires Written(it) && Here(input, pos, it.text + [it.end])
    ensures ReadLine(input, pos, MAX_LINE) == Line(it.text, pos + |it.text| + 1)
  {
    hide ReadLine, Whole, Holds;
    var n := |it.text|;
    var t := input[pos..pos + n + 1];
    assert t == it.text + [it.end];
    assert input[pos + n] == t[n] && input[pos..pos + n] == t[..n] == it.text;
    forall i | pos <= i < pos + n ensures Ordinary(input[i]) {
      assert input[i] == it.text[i - pos] && Plain(it.text[i - pos]);
    }
    ReadLineIs(input, pos, MAX_LINE, n);
  }

  /** What one line does to the transfer. */
  lemma {:induction false} ItemLoads(input: string, pos: nat, it: Item, offset: int, ld: Loader)
    requires Written(it) && Here(input, pos, it.text + [it.end])
    ensures var next := pos + |it.text| + 1;
            && next <= |input|
            && LoadFrom(input, pos, offset, ld) ==
               if GoesOn(it) then LoadFrom(input, next, offset, StoreAll(ld, Payload(it, offset)))
               else if it.Rec? && SumsUp(it) then Complete(it.addr, Size(ld), ld)
               else Invalid
  {
    hide ReadLine, Decode, Store, Size, Holds, Whole, Sum;
    ItemIsRead(input, pos, it);
    ItemDecodes(it);
    StoreOne(ld, Payload(it, offset));
  }

  lemma {:induction false} StoreOne(ld: Loader, recs: seq<(nat, seq<byte>)>)
    ensures recs == [] ==> StoreAll(ld, recs) == ld
    ensures |recs| == 1 ==> StoreAll(ld, recs) == Store(ld, recs[0].0, recs[0].1)
  {
    if |recs| == 1 { assert recs[..0] == []; }
  }

  lemma {:induction false} StoreMore(ld: Loader, recs: seq<(nat, seq<byte>)>, more: seq<(nat, seq<byte>)>)
    requires |more| <= 1
    ensures StoreAll(ld, recs + more) == StoreAll(StoreAll(ld, recs), more)
  {
    hide Store;
    StoreOne(StoreAll(ld, recs), more);
    if more == [] {
      assert recs + more == recs;
    } else {
      assert (recs + more)[..|recs|] == recs && (recs + more)[|recs|] == more[0];
    }
  }

  /** Lines of records and of other text load all their payloads in order, and the transfer goes on. */
  lemma {:induction false} FileLoads(input: string, pos: nat, items: seq<Item>, offset: int, ld: Loader)
    requires AllGoOn(items) && Here(input, pos, FileText(items))
    ensures pos + |FileText(items)| <= |input|
    ensures LoadFrom(input, pos, offset, ld)
         == LoadFrom(input, pos + |FileText(items)|, offset, StoreAll(ld, Payloads(items, offset)))
    decreases |items|
  {
    hide LoadFrom, StoreAll, Here, GoesOn, Written;
    if items == [] {
      StoreOne(ld, Payloads(items, offset));
      HereFits(input, pos, FileText(items));
    } else {
      var n := |items| - 1;
      var front, it := items[..n], items[n];
      HereSplits(input, pos, FileText(front), it.text + [it.end]);
      FileLoads(input, pos, front, offset, ld);
      ItemLoads(input, pos + |FileText(front)|, it, offset, StoreAll(ld, Payloads(front, offset)));
      StoreMore(ld, Payloads(front, offset), Payload(it, offset));
    }
  }

  lemma {:induction false} HereFits(input: string, pos: nat, text: string)
    requires Here(input, pos, text)
    ensures pos + |text| <= |input|
  {
  }

  /**
   The first end record completes the transfer with its address, the first line that is no good
   record ends it, and what stands behind either does not count; without one the loader waits.
   */
  lemma {:induction false} FileEnds(items: seq<Item>, last: Item, rest: string, offset: int, mem: map<int, byte>)
    requires AllGoOn(items) && Written(last) && !GoesOn(last)
    ensures var ld := StoreAll(Loader(mem, 0xFFFF_FFFF, 0), Payloads(items, offset));
            && LoadFrom(FileText(items) + (last.text + [last.end]) + rest, 0, offset, Loader(mem, 0xFFFF_FFFF, 0)) ==
               (if last.Rec? && SumsUp(last) then Complete(last.addr, (ld.end - ld.start + 1) % 0x1_0000_0000, ld) else Invalid)
            && LoadFrom(FileText(items), 0, offset, Loader(mem, 0xFFFF_FFFF, 0)) == Waiting
  {
    hide LoadFrom, StoreAll, GoesOn, Written, AllGoOn, SumsUp;
    var ld := Loader(mem, 0xFFFF_FFFF, 0);
    var front, line := FileText(items), last.text + [last.end];
    var input := front + line + rest;
    assert input[..|front + line|] == front + line;
    assert input[0..|front|] == front && input[|front|..|front| + |line|] == line;
    FileLoads(input, 0, items, offset, ld);
    ItemLoads(input, |front|, last, offset, StoreAll(ld, Payloads(items, offset)));
    assert front[0..|front|] == front;
    FileLoads(front, 0, items, offset, ld);
    NoMoreInput(front, offset, StoreAll(ld, Payloads(items, offset)));
  }

  lemma {:induction false} NoMoreInput(input: string, offset: int, ld: Loader)
    ensures LoadFrom(input, |input|, offset, ld) == Waiting
  {
  }
}

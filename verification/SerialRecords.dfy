/**
 save_serial and load_serial: a memory range is written out as S3 records and read back.
 */
module SerialRecords {
  import opened Bytes
  import opened SRecord

  const START_LINE := "S0030000FC"
  const END_LINE := "S70500000000FA"

  // ---------------------------------------------------------------- what is written

  /** Everything after "S3" except the checksum: length, address, data. */
  function Checked(addr: nat, data: seq<byte>): seq<byte>
    requires addr < WORD && |data| <= BYTES_PER_RECORD
  {
    [|data| + 5] + BytesOfWord(addr) + data
  }

  function Checksum(addr: nat, data: seq<byte>): byte
    requires addr < WORD && |data| <= BYTES_PER_RECORD
  {
    255 - Sum(Checked(addr, data)) % 256
  }

  /** One S3 record, without its newline. */
  function DataLine(addr: nat, data: seq<byte>): (t: string)
    requires addr < WORD && |data| <= BYTES_PER_RECORD
  {
    "S3" + HexText(Checked(addr, data) + [Checksum(addr, data)])
  }

  /** k bytes further, in 32-bit arithmetic. */
  function Onward(addr: nat, k: nat): (r: nat)
    ensures r < WORD && (addr + k < WORD ==> r == addr + k)
  {
    (addr + k) % WORD
  }

  /** Sixteen bytes to a record. */
  function DataLines(addr: nat, data: seq<byte>): string
    requires addr < WORD
    decreases |data|
  {
    if data == [] then ""
    else if |data| <= BYTES_PER_RECORD then DataLine(addr, data) + "\n"
    else
      var rest := DataLines(Onward(addr, BYTES_PER_RECORD), data[BYTES_PER_RECORD..]);
      DataLine(addr, data[..BYTES_PER_RECORD]) + "\n" + rest
  }

  function Upload(addr: nat, data: seq<byte>): string
    requires addr < WORD
  {
    START_LINE + "\n" + DataLines(addr, data) + END_LINE + "\n"
  }

  ghost predicate Mapped(mem: map<int, byte>, a: nat, n: nat) {
    forall i: nat :: i < n ==> Onward(a, i) in mem
  }

  /** The n bytes from address a on. */
  ghost function Slice(mem: map<int, byte>, a: nat, n: nat): (s: seq<byte>)
    requires Mapped(mem, a, n)
    ensures |s| == n
  {
    seq(n, i requires 0 <= i < n => mem[Onward(a, i)])
  }

  // ---------------------------------------------------------------- the writer

  class Uploader {
    const data: array<char>       // hex text of the record being collected
    var out: string

    constructor ()
      ensures out == "" && fresh(data) && data.Length == 2 * BYTES_PER_RECORD + 1
    {
      data := new char[2 * BYTES_PER_RECORD + 1];
      out := "";
    }

    /** sprintf into the 48-byte record buffer, and write_record. */
    method WriteDataRecord(addr: nat, reclen: nat, sum: nat, ghost bytes: seq<byte>)
      requires data.Length == 2 * BYTES_PER_RECORD + 1
      requires addr < WORD && 0 < reclen <= BYTES_PER_RECORD && |bytes| == reclen
      requires data[..2 * reclen] == HexText(bytes) && sum == Sum(bytes)
      modifies this`out
      ensures out == old(out) + DataLine(addr, bytes) + "\n"
      ensures |out| - |old(out)| + 1 <= 48 && (reclen == BYTES_PER_RECORD ==> |out| - |old(out)| + 1 == 48)
    {
      hide BytesOfWord, Sum, HexText, Checked, Checksum, DataLine;
      var length := 4 + reclen + 1;
      var checksum := AddAddress(addr, sum + length % 256 + length / 256);
      ChecksumIs(addr, bytes, checksum);
      LineLayout(addr, bytes);
      var check: byte := 255 - checksum % 256;
      var record := "S3" + (HexText([length]) + HexText(BytesOfWord(addr)) + data[..2 * reclen] + HexText([check]));
      out := out + record + "\n";
    }

    /** data holds the hex text of reclen bytes from address, and checksum their sum. */
    ghost predicate Collected(mem: map<int, byte>, address: nat, reclen: nat, checksum: nat)
      reads this, data
    {
      && data.Length == 2 * BYTES_PER_RECORD + 1 && reclen <= BYTES_PER_RECORD
      && Mapped(mem, address, reclen)
      && checksum == Sum(Slice(mem, address, reclen))
      && data[..2 * reclen] == HexText(Slice(mem, address, reclen))
    }

    /** The lines still to be written complete out to goal. */
    ghost predicate Pending(mem: map<int, byte>, address: nat, count: nat, goal: string)
      reads this
    {
      && address < WORD && Mapped(mem, address, count)
      && out + DataLines(address, Slice(mem, address, count)) == goal
    }

    method StorePair(reclen: nat, hi: char, lo: char)
      requires data.Length == 2 * BYTES_PER_RECORD + 1 && reclen < BYTES_PER_RECORD
      modifies data
      ensures data[..2 * reclen + 2] == old(data[..2 * reclen]) + [hi, lo]
    {
      data[2 * reclen] := hi;
      data[2 * reclen + 1] := lo;
      data[2 * reclen + 2] := '\0';
    }

    /** Two hex digits and a NUL behind those collected so far. */
    method CollectByte(mem: map<int, byte>, address: nat, reclen: nat, checksum: nat,
                       ghost count: nat, ghost goal: string) returns (sum: nat)
      requires Collected(mem, address, reclen, checksum) && reclen < BYTES_PER_RECORD
      requires count > 0 && Pending(mem, address, reclen + count, goal)
      modifies data
      ensures Collected(mem, address, reclen + 1, sum)
    {
      PendingIsMapped(mem, address, reclen, count, goal);
      hide Slice, HexText, Sum, Digit, Pending;
      var c := mem[Onward(address, reclen)];
      ghost var s := Slice(mem, address, reclen);
      SliceGrows(mem, address, reclen);
      HexTextAppend(s, c);
      sum := checksum + c;
      StorePair(reclen, Digit(c / 16), Digit(c % 16));
    }

    /** The do-while loop of save_serial. */
    method SaveData(mem: map<int, byte>, address0: nat, count0: nat)
      requires data.Length == 2 * BYTES_PER_RECORD + 1
      requires address0 < WORD && Mapped(mem, address0, count0)
      modifies this`out, data
      ensures out == old(out) + DataLines(address0, Slice(mem, address0, count0))
    {
      hide *;
      var address: nat, count: nat := address0, count0;
      var reclen: nat, checksum: nat := 0, 0;
      ghost var goal := out + DataLines(address0, Slice(mem, address0, count0));
      NothingYet(mem, address, count, goal);
      var more := true;
      while more
        invariant reclen < BYTES_PER_RECORD && (count == 0 ==> reclen == 0) && (more || count == 0)
        invariant Collected(mem, address, reclen, checksum)
        invariant Pending(mem, address, reclen + count, goal)
        decreases more, count
      {
        if count > 0 {
          checksum := CollectByte(mem, address, reclen, checksum, count, goal);
          reclen, count := reclen + 1, count - 1;
        }
        address, reclen, checksum := FlushIfFull(mem, address, reclen, count, checksum, goal);
        more := count > 0;
      }
      NothingPending(mem, address, goal);
    }

    method FlushIfFull(mem: map<int, byte>, address: nat, reclen: nat, count: nat, checksum: nat, ghost goal: string)
      returns (address': nat, reclen': nat, checksum': nat)
      requires Collected(mem, address, reclen, checksum) && Pending(mem, address, reclen + count, goal)
      requires reclen <= BYTES_PER_RECORD
      modifies this`out
      ensures reclen' < BYTES_PER_RECORD && (count == 0 ==> reclen' == 0)
      ensures Collected(mem, address', reclen', checksum') && Pending(mem, address', reclen' + count, goal)
    {
      hide Collected, Pending;
      if reclen == BYTES_PER_RECORD || count == 0 {
        Flush(mem, address, reclen, count, checksum, goal);
        address', reclen', checksum' := Onward(address, reclen), 0, 0;
      } else {
        address', reclen', checksum' := address, reclen, checksum;
      }
    }

    lemma {:induction false} PendingIsMapped(mem: map<int, byte>, address: nat, reclen: nat, count: nat, goal: string)
      requires count > 0 && Pending(mem, address, reclen + count, goal)
      ensures Mapped(mem, address, reclen + 1)
    {
    }

    lemma {:induction false} NothingYet(mem: map<int, byte>, address: nat, count: nat, goal: string)
      requires data.Length == 2 * BYTES_PER_RECORD + 1
      requires address < WORD && Mapped(mem, address, count)
      requires goal == out + DataLines(address, Slice(mem, address, count))
      ensures Collected(mem, address, 0, 0) && Pending(mem, address, count, goal) && 0 < BYTES_PER_RECORD
    {
      NothingCollected(mem, address);
      assert data[..0] == [];
    }

    lemma {:induction false} NothingPending(mem: map<int, byte>, address: nat, goal: string)
      requires Pending(mem, address, 0, goal)
      ensures out == goal
    {
      NothingCollected(mem, address);
    }

    /** The record collected so far moves from what is left into the output. */
    method Flush(mem: map<int, byte>, address: nat, reclen: nat, count: nat, checksum: nat, ghost goal: string)
      requires Collected(mem, address, reclen, checksum) && Pending(mem, address, reclen + count, goal)
      requires reclen == BYTES_PER_RECORD || count == 0
      modifies this`out
      ensures Pending(mem, Onward(address, reclen), count, goal)
      ensures Collected(mem, Onward(address, reclen), 0, 0)
    {
      NothingCollected(mem, Onward(address, reclen));
      assert data[..0] == [];
      hide Sum, HexText, DataLines, Slice, DataLine;
      if reclen > 0 {
        FlushLine(mem, address, reclen, count);
        ghost var line := DataLine(address, Slice(mem, address, reclen));
        ghost var rest := DataLines(Onward(address, reclen), Slice(mem, Onward(address, reclen), count));
        Reassociate(out, line, rest);
        WriteDataRecord(address, reclen, checksum, Slice(mem, address, reclen));
      }
    }

    /** save_serial; the range may wrap around the top of the address space. */
    method SaveSerial(mem: map<int, byte>, address: nat, count: nat)
      requires data.Length == 2 * BYTES_PER_RECORD + 1 && out == ""
      requires address < WORD && Mapped(mem, address, count)
      modifies this`out, data
      ensures out == Upload(address, Slice(mem, address, count))
    {
      out := START_LINE + "\n";
      SaveData(mem, address, count);
      out := out + END_LINE + "\n";
    }
  }

  lemma {:induction false} Reassociate(out: string, line: string, rest: string)
    ensures out + (line + "\n" + rest) == out + line + "\n" + rest
  {
  }

  lemma {:induction false} NothingCollected(mem: map<int, byte>, address: nat)
    requires address < WORD
    ensures var s := Slice(mem, address, 0);
            Sum(s) == 0 && HexText(s) == [] && DataLines(address, s) == ""
  {
  }

  /** The loop that adds the four address bytes, lowest first. */
  method AddAddress(addr: nat, sum: nat) returns (checksum: nat)
    requires addr < WORD
    ensures checksum == sum + Sum(BytesOfWord(addr))
  {
    var i, rest := 0, addr;
    checksum := sum;
    ghost var s := BytesOfWord(addr);
    assert s[4..] == [] && Sum([]) == 0;
    hide BytesOfWord, Sum, Shifted;
    ShiftOne(addr);
    while i < 4
      invariant i <= 4 && checksum == sum + Sum(s[4 - i..]) && rest == Shifted(addr, i)
    {
      SumPrepend(s[3 - i], s[4 - i..]);
      assert [s[3 - i]] + s[4 - i..] == s[3 - i..];
      checksum := checksum + rest % 256;
      rest, i := rest / 256, i + 1;
    }
    assert s[0..] == s;
  }

  /** addr >> 8 * i */
  function Shifted(addr: nat, i: nat): nat {
    if i == 0 then addr else if i == 1 then addr / 0x100
    else if i == 2 then addr / 0x1_0000 else if i == 3 then addr / 0x100_0000 else 0
  }

  lemma {:induction false} ShiftOne(addr: nat)
    requires addr < WORD
    ensures Shifted(addr, 0) == addr
    ensures forall i: nat :: i < 4 ==>
              Shifted(addr, i + 1) == Shifted(addr, i) / 256 && Shifted(addr, i) % 256 == BytesOfWord(addr)[3 - i]
  {
  }

  lemma {:induction false} CheckedSum(addr: nat, data: seq<byte>)
    requires addr < WORD && |data| <= BYTES_PER_RECORD
    ensures Sum(Checked(addr, data)) == |data| + 5 + Sum(BytesOfWord(addr)) + Sum(data)
  {
    hide BytesOfWord, Sum;
    SumPrepend(|data| + 5, BytesOfWord(addr));
    SumConcat([|data| + 5] + BytesOfWord(addr), data);
  }

  lemma {:induction false} ChecksumIs(addr: nat, data: seq<byte>, sum: nat)
    requires addr < WORD && |data| <= BYTES_PER_RECORD && sum == Sum(data) + |data| + 5 + Sum(BytesOfWord(addr))
    ensures Checksum(addr, data) == 255 - sum % 256
  {
    hide BytesOfWord, Sum, Checked;
    CheckedSum(addr, data);
  }

  lemma {:induction false} HexTextOfFour(a: seq<byte>, b: seq<byte>, c: seq<byte>, d: seq<byte>)
    ensures HexText(a + b + c + d) == HexText(a) + HexText(b) + HexText(c) + HexText(d)
  {
    hide HexText;
    HexTextConcat(a, b);
    HexTextConcat(a + b, c);
    HexTextConcat(a + b + c, d);
  }

  /** A record in the layout of its format string: length, address, data, checksum. */
  lemma {:induction false} LineLayout(addr: nat, data: seq<byte>)
    requires addr < WORD && |data| <= BYTES_PER_RECORD
    ensures DataLine(addr, data) == "S3" + (HexText([|data| + 5]) + HexText(BytesOfWord(addr))
                                            + HexText(data) + HexText([Checksum(addr, data)]))
  {
    hide HexText, Checksum, BytesOfWord;
    HexTextOfFour([|data| + 5], BytesOfWord(addr), data, [Checksum(addr, data)]);
  }

  lemma {:induction false} HexTextAppend(s: seq<byte>, c: byte)
    ensures HexText(s + [c]) == HexText(s) + [Digit(c / 16), Digit(c % 16)]
  {
    HexTextConcat(s, [c]);
    assert [c][1..] == [] && HexText([]) == "";
    assert HexText([c]) == [Digit(c / 16), Digit(c % 16)];
  }

  lemma {:induction false} SliceGrows(mem: map<int, byte>, a: nat, n: nat)
    requires Mapped(mem, a, n + 1)
    ensures var s := Slice(mem, a, n);
            var c := mem[Onward(a, n)];
            Slice(mem, a, n + 1) == s + [c] && Sum(s + [c]) == Sum(s) + c
  {
    hide Onward;
    SumAppend(Slice(mem, a, n), mem[Onward(a, n)]);
  }

  /** A full record, or the last one, is the first line of what is left. */
  lemma {:induction false} FlushLine(mem: map<int, byte>, address: nat, reclen: nat, count: nat)
    requires 0 < reclen <= BYTES_PER_RECORD && (reclen == BYTES_PER_RECORD || count == 0)
    requires address < WORD && Mapped(mem, address, reclen + count)
    ensures Mapped(mem, Onward(address, reclen), count)
    ensures DataLines(address, Slice(mem, address, reclen + count))
         == DataLine(address, Slice(mem, address, reclen)) + "\n"
          + DataLines(Onward(address, reclen), Slice(mem, Onward(address, reclen), count))
  {
    hide DataLines, DataLine, Slice, Onward;
    SliceSplits(mem, address, reclen, count);
    LinesSplit(address, Slice(mem, address, reclen + count), reclen);
  }

  lemma {:induction false} SliceSplits(mem: map<int, byte>, a: nat, n: nat, m: nat)
    requires Mapped(mem, a, n + m)
    ensures Mapped(mem, a, n) && Mapped(mem, Onward(a, n), m)
    ensures Slice(mem, a, n + m)[..n] == Slice(mem, a, n) && Slice(mem, a, n + m)[n..] == Slice(mem, Onward(a, n), m)
  {
    hide Onward;
    forall i: nat | i < m ensures Onward(Onward(a, n), i) == Onward(a, n + i) {
      OnwardTwice(a, n, i);
    }
  }

  lemma {:induction false} OnwardTwice(a: nat, n: nat, i: nat)
    ensures Onward(Onward(a, n), i) == Onward(a, n + i)
  {
  }

  lemma {:induction false} LinesSplit(addr: nat, all: seq<byte>, k: nat)
    requires addr < WORD && 0 < k <= BYTES_PER_RECORD && k <= |all| && (k == BYTES_PER_RECORD || k == |all|)
    ensures DataLines(addr, all) == DataLine(addr, all[..k]) + "\n" + DataLines(Onward(addr, k), all[k..])
  {
    hide DataLine, Onward;
    if k == |all| {
      assert all[..k] == all && all[k..] == [];
      assert DataLines(Onward(addr, k), []) == "";
    }
  }

  // ---------------------------------------------------------------- the reader

  datatype Line = Line(text: string, next: nat) | Stop | NoInput

  /** read_record with room characters left in the buffer; NoInput is waiting for getc. */
  function ReadLine(input: string, pos: nat, room: nat): (r: Line)
    requires pos <= |input|
    ensures r.Line? ==> pos <= r.next <= |input| && (room > 0 ==> pos < r.next)
    decreases room
  {
    if room == 0 then Line("", pos)
    else if pos == |input| then NoInput
    else if input[pos] == '\r' || input[pos] == '\n' then Line("", pos + 1)
    else if input[pos] == '\0' || input[pos] == 3 as char then Stop
    else match ReadLine(input, pos + 1, room - 1)
      case Line(t, next) => Line([input[pos]] + t, next)
      case other => other
  }

  method ReadRecord(input: string, pos: nat) returns (r: Line)
    requires pos <= |input|
    ensures r == ReadLine(input, pos, MAX_LINE)
  {
    var text, p := "", pos;
    while p < pos + MAX_LINE
      invariant pos <= p <= |input| && p <= pos + MAX_LINE
      invariant ReadLine(input, pos, MAX_LINE) ==
                match ReadLine(input, p, pos + MAX_LINE - p)
                case Line(t, next) => Line(text + t, next)
                case other => other
    {
      if p == |input| { return NoInput; }
      var c := input[p];
      if c == '\r' || c == '\n' { return Line(text, p + 1); }
      if c == '\0' || c == 3 as char { return Stop; }
      ghost var rest := ReadLine(input, p + 1, pos + MAX_LINE - p - 1);
      assert rest.Line? ==> text + ([c] + rest.text) == text + [c] + rest.text;
      text, p := text + [c], p + 1;
    }
    r := Line(text, p);
  }

  /** Loaded memory and the lowest and highest address written (start_addr, end_addr). */
  datatype Loader = Loader(mem: map<int, byte>, start: nat, end: nat)

  /** memcpy */
  function MemWrite(mem: map<int, byte>, a: int, data: seq<byte>): map<int, byte>
    decreases |data|
  {
    if data == [] then mem else MemWrite(mem[a := data[0]], a + 1, data[1..])
  }

  /** store_addr + binlen - 1 in 32 bits. */
  function LastStored(a: nat, data: seq<byte>): nat { (a + |data| - 1) % WORD }

  function Store(ld: Loader, a: nat, data: seq<byte>): Loader {
    Loader(MemWrite(ld.mem, a, data),
           if a < ld.start then a else ld.start,
           if LastStored(a, data) > ld.end then LastStored(a, data) else ld.end)
  }

  method StoreRecord(ld: Loader, a: nat, data: seq<byte>) returns (r: Loader)
    ensures r == Store(ld, a, data)
  {
    var mem := MemWrite(ld.mem, a, data);
    var start, end := ld.start, ld.end;
    if a < start { start := a; }
    if LastStored(a, data) > end { end := LastStored(a, data); }
    r := Loader(mem, start, end);
  }

  function StoreAddr(addr: nat, offset: int): nat { (addr + offset) % WORD }

  /** The size computed at the end record. */
  function Size(ld: Loader): nat { (ld.end - ld.start + 1) % WORD }

  datatype Loaded =
    | Complete(entry: nat, size: nat, ld: Loader)
    | Invalid      // a line that is no good record
    | Aborted      // NUL or ^C
    | Waiting      // more input needed
    | WildCopy     // memcpy with a negative length

  function LoadFrom(input: string, pos: nat, offset: int, ld: Loader): Loaded
    requires pos <= |input|
    decreases |input| - pos
  {
    match ReadLine(input, pos, MAX_LINE)
    case NoInput => Waiting
    case Stop => Aborted
    case Line(text, next) =>
      match Decode(text)
      case Record(kind, addr, binlen, data) =>
        if kind == Data then
          if binlen < 0 then WildCopy
          else LoadFrom(input, next, offset, Store(ld, StoreAddr(addr, offset), data))
        else if kind == End then Complete(addr, Size(ld), ld)
        else LoadFrom(input, next, offset, ld)
      case Empty => LoadFrom(input, next, offset, ld)
      case _ => Invalid
  }

  /** load_serial: start_addr begins at ~0, end_addr at 0. */
  method LoadSerial(input: string, offset: int, mem: map<int, byte>) returns (r: Loaded)
    ensures r == LoadFrom(input, 0, offset, Loader(mem, WORD - 1, 0))
  {
    var pos, ld := 0, Loader(mem, WORD - 1, 0);
    ghost var goal := LoadFrom(input, pos, offset, ld);
    hide ReadLine, Decode, Store, StoreAddr, Size;
    while true
      invariant pos <= |input|
      invariant LoadFrom(input, pos, offset, ld) == goal
      decreases |input| - pos
    {
      var line := ReadRecord(input, pos);
      if line.NoInput? { return Waiting; }
      if line.Stop? { return Aborted; }
      var record := SrecDecode(line.text);
      match record {
      case Record(kind, addr, binlen, data) =>
        if kind == Data {
          if binlen < 0 { return WildCopy; }
          ld := StoreRecord(ld, StoreAddr(addr, offset), data);
        } else if kind == End {
          return Complete(addr, Size(ld), ld);
        }
      case Empty =>
      case _ => return Invalid;
      }
      pos := line.next;
    }
  }

  /** A good data record asks for a copy of negative length exactly when it announces too few bytes for address and checksum. */
  lemma {:induction false} ShortCountsAreWild(line: string)
    requires Decode(line).Record? && Decode(line).kind == Data
    ensures var p := AfterS(line, 0);
            && p < |line| && KnownType(line[p])
            && (Decode(line).binlen < 0 <==> Hex2(line, p + 1) <= AddrLen(line[p]))
  {
    hide HexBytes, Sum, BigEndian, AfterS;
  }

  // ---------------------------------------------------------------- the round trip

  /** Characters read_record passes on. */
  predicate Plain(c: char) { c != '\r' && c != '\n' && c != '\0' && c != 3 as char }

  ghost predicate AllPlain(s: string) {
    forall i :: 0 <= i < |s| ==> Plain(s[i])
  }

  lemma {:induction false} HexTextIsPlain(s: seq<byte>)
    ensures AllPlain(HexText(s))
  {
    if s != [] { HexTextIsPlain(s[1..]); }
  }

  /** text stands at position pos of the input. */
  ghost predicate Here(input: string, pos: nat, text: string) {
    pos + |text| <= |input| && input[pos..pos + |text|] == text
  }

  lemma {:induction false} HereSplits(input: string, pos: nat, a: string, b: string)
    requires Here(input, pos, a + b)
    ensures Here(input, pos, a) && Here(input, pos + |a|, b)
    ensures pos + |a| + |b| <= |input|
  {
    var t := input[pos..pos + |a + b|];
    assert t[..|a|] == a && t[|a|..] == b;
    assert input[pos..pos + |a|] == t[..|a|];
    assert input[pos + |a|..pos + |a| + |b|] == t[|a|..];
  }

  lemma {:induction false} ReadsBackLine(input: string, pos: nat, text: string, room: nat)
    requires AllPlain(text) && |text| < room && Here(input, pos, text + "\n")
    ensures ReadLine(input, pos, room) == Line(text, pos + |text| + 1)
    decreases |text|
  {
    var t := text + "\n";
    assert input[pos] == t[0] by { assert input[pos..pos + |t|][0] == input[pos]; }
    if text != "" {
      assert Plain(text[0]);
      assert t == [text[0]] + (text[1..] + "\n");
      HereSplits(input, pos, [text[0]], text[1..] + "\n");
      assert AllPlain(text[1..]) by {
        forall i | 0 <= i < |text[1..]| ensures Plain(text[1..][i]) { assert text[1..][i] == text[i + 1]; }
      }
      ReadsBackLine(input, pos + 1, text[1..], room - 1);
      assert [text[0]] + text[1..] == text;
    }
  }

  lemma {:induction false} BigEndianAppends(s: seq<byte>, b: byte)
    ensures BigEndian(s + [b]) == BigEndian(s) * 256 + b
  {
    assert (s + [b])[..|s + [b]| - 1] == s;
  }

  lemma {:induction false} FourDigits(addr: nat)
    requires addr < WORD
    ensures ((addr / 0x100_0000 * 256 + addr / 0x1_0000 % 256) * 256 + addr / 256 % 256) * 256 + addr % 256 == addr
  {
    assert addr / 0x1_0000 == addr / 256 / 256 && addr / 0x100_0000 == addr / 256 / 256 / 256;
  }

  lemma {:induction false} BigEndianOfAddr(addr: nat)
    requires addr < WORD
    ensures BigEndian(BytesOfWord(addr)) == addr
  {
    FourDigits(addr);
    var s := BytesOfWord(addr);
    assert s == [] + [s[0]] + [s[1]] + [s[2]] + [s[3]];
    assert BigEndian([]) == 0;
    hide BigEndian;
    BigEndianAppends([], s[0]);
    BigEndianAppends([] + [s[0]], s[1]);
    BigEndianAppends([] + [s[0]] + [s[1]], s[2]);
    BigEndianAppends([] + [s[0]] + [s[1]] + [s[2]], s[3]);
  }

  /** A line "S", type, hexadecimal bytes decodes by its fields. */
  lemma {:induction false} DecodesFields(v: char, count: byte, f: seq<byte>)
    requires KnownType(v) && v != 'S' && |f| == AddrLen(v) + DataLen(v, count) + 1
    requires (count + Sum(f)) % 256 == 255
    ensures Decode(['S', v] + HexText([count] + f))
         == Record(KindOf(v), BigEndian(f[..AddrLen(v)]), BinLen(v, count), f[AddrLen(v)..AddrLen(v) + DataLen(v, count)])
  {
    hide HexText, HexBytes, AfterS, Hex2, Sum, BigEndian;
    var line := ['S', v] + HexText([count] + f);
    var head := ['S', v] + HexText([count]);
    HexTextConcat([count], f);
    assert line == head + HexText(f) == head + HexText(f) + "";
    StartsRecord(v, HexText([count] + f));
    CountIsRead(v, count, HexText(f));
    HexRoundTrip(head, f, "");
  }

  lemma {:induction false} StartsRecord(v: char, rest: string)
    ensures AfterS(['S', v] + rest, 0) == 1
  {
    assert (['S', v] + rest)[0] == 'S';
  }

  lemma {:induction false} CountIsRead(v: char, count: byte, after: string)
    ensures Hex2(['S', v] + HexText([count]) + after, 2) == count
  {
    var line := ['S', v] + HexText([count]) + after;
    HexRoundTrip(['S', v], [count], after);
    assert HexBytes(line, 2, 1) == Some([count]);
    assert HexBytes(line, 4, 0) == Some([]);
    assert HexBytes(line, 2, 1).value[0] == Hex2(line, 2);
  }

  lemma {:induction false} DataLineDecodes(addr: nat, data: seq<byte>)
    requires addr < WORD && |data| <= BYTES_PER_RECORD
    ensures Decode(DataLine(addr, data)) == Record(Data, addr, |data|, data)
  {
    hide HexText, Decode, BytesOfWord, Sum, BigEndian;
    var count: byte := |data| + 5;
    var check := Checksum(addr, data);
    var f := BytesOfWord(addr) + data + [check];
    assert Checked(addr, data) + [check] == [count] + f;
    SumAppend(Checked(addr, data), check);
    SumPrepend(count, f);
    DecodesFields('3', count, f);
    BigEndianOfAddr(addr);
    assert f[..4] == BytesOfWord(addr) && f[4..4 + |data|] == data;
  }

  /** A line of the input is taken and the rest is loaded. */
  lemma {:induction false} LoadStep(input: string, pos: nat, text: string, offset: int, ld: Loader)
    requires AllPlain(text) && |text| < MAX_LINE && Decode(text).Record? && Here(input, pos, text + "\n")
    ensures var Record(kind, addr, binlen, data) := Decode(text);
            var next := pos + |text| + 1;
            LoadFrom(input, pos, offset, ld) ==
            if kind == Data && binlen < 0 then WildCopy
            else if kind == Data then LoadFrom(input, next, offset, Store(ld, StoreAddr(addr, offset), data))
            else if kind == End then Complete(addr, Size(ld), ld)
            else LoadFrom(input, next, offset, ld)
  {
    hide Decode, ReadLine, Store, StoreAddr, Size;
    ReadsBackLine(input, pos, text, MAX_LINE);
  }

  lemma {:induction false} MemWriteConcat(mem: map<int, byte>, a: int, x: seq<byte>, y: seq<byte>)
    ensures MemWrite(MemWrite(mem, a, x), a + |x|, y) == MemWrite(mem, a, x + y)
    decreases |x|
  {
    if x == [] {
      assert x + y == y;
    } else {
      assert (x + y)[1..] == x[1..] + y;
      MemWriteConcat(mem[a := x[0]], a + 1, x[1..], y);
    }
  }

  /** What memcpy leaves behind: the data in its range, everything else untouched. */
  lemma {:induction false} MemWriteMeans(mem: map<int, byte>, a: int, data: seq<byte>)
    ensures var m := MemWrite(mem, a, data);
            && (forall x :: a <= x < a + |data| ==> x in m && m[x] == data[x - a])
            && (forall x :: !(a <= x < a + |data|) ==> (x in m <==> x in mem) && (x in mem ==> m[x] == mem[x]))
    decreases |data|
  {
    if data != [] {
      var mem1, m := mem[a := data[0]], MemWrite(mem, a, data);
      MemWriteMeans(mem1, a + 1, data[1..]);
      assert a in m && m[a] == data[0] by { assert a in m <==> a in mem1; }
      forall x | !(a <= x < a + |data|)
        ensures (x in m <==> x in mem) && (x in mem ==> m[x] == mem[x])
      {
        assert x in m <==> x in mem1;
      }
    }
  }

  lemma {:induction false} DataLineIsPlain(addr: nat, data: seq<byte>)
    requires addr < WORD && |data| <= BYTES_PER_RECORD
    ensures AllPlain(DataLine(addr, data)) && |DataLine(addr, data)| < MAX_LINE
  {
    HexTextIsPlain(Checked(addr, data) + [Checksum(addr, data)]);
  }

  /** Loading consecutive records is loading their data at once. */
  lemma {:induction false} LinesLoad(input: string, pos: nat, addr: nat, data: seq<byte>, offset: int, ld: Loader)
    requires addr + |data| <= WORD && data != [] && Here(input, pos, DataLines(addr, data))
    requires 0 <= addr + offset && addr + offset + |data| <= WORD
    ensures LoadFrom(input, pos, offset, ld)
         == LoadFrom(input, pos + |DataLines(addr, data)|, offset, Store(ld, addr + offset, data))
    decreases |data|
  {
    hide *;
    LinesUnfold(addr, data);
    if |data| <= BYTES_PER_RECORD {
      OneLineLoads(input, pos, addr, data, offset, ld);
    } else {
      var first, rest := data[..BYTES_PER_RECORD], data[BYTES_PER_RECORD..];
      var line, others := DataLine(addr, first), DataLines(addr + BYTES_PER_RECORD, rest);
      HereSplits(input, pos, line + "\n", others);
      OneLineLoads(input, pos, addr, first, offset, ld);
      LinesLoad(input, pos + |line| + 1, addr + BYTES_PER_RECORD, rest, offset, Store(ld, addr + offset, first));
      StoreJoins(ld, addr + offset, first, rest);
      assert first + rest == data;
    }
  }

  lemma {:induction false} LinesUnfold(addr: nat, data: seq<byte>)
    requires addr + |data| <= WORD && data != []
    ensures BYTES_PER_RECORD == 16
    ensures |data| <= BYTES_PER_RECORD ==> DataLines(addr, data) == DataLine(addr, data) + "\n"
    ensures |data| > BYTES_PER_RECORD ==>
              DataLines(addr, data) == DataLine(addr, data[..BYTES_PER_RECORD]) + "\n"
                                     + DataLines(addr + BYTES_PER_RECORD, data[BYTES_PER_RECORD..])
  {
    hide DataLine;
    if |data| > BYTES_PER_RECORD { assert Onward(addr, BYTES_PER_RECORD) == addr + BYTES_PER_RECORD; }
    hide Onward;
  }

  lemma {:induction false} OneLineLoads(input: string, pos: nat, addr: nat, data: seq<byte>, offset: int, ld: Loader)
    requires 0 < |data| <= BYTES_PER_RECORD && addr + |data| <= WORD
    requires 0 <= addr + offset && addr + offset + |data| <= WORD
    requires Here(input, pos, DataLine(addr, data) + "\n")
    ensures LoadFrom(input, pos, offset, ld)
         == LoadFrom(input, pos + |DataLine(addr, data)| + 1, offset, Store(ld, addr + offset, data))
  {
    hide DataLine, Decode, LoadFrom, Store;
    DataLineIsPlain(addr, data);
    DataLineDecodes(addr, data);
    LoadStep(input, pos, DataLine(addr, data), offset, ld);
  }

  lemma {:induction false} StoreJoins(ld: Loader, a: nat, x: seq<byte>, y: seq<byte>)
    requires x != [] && y != [] && a + |x| + |y| <= WORD
    ensures Store(Store(ld, a, x), a + |x|, y) == Store(ld, a, x + y)
  {
    MemWriteConcat(ld.mem, a, x, y);
  }

  lemma {:induction false} HexTextCons(b: byte, s: seq<byte>)
    ensures HexText([b] + s) == [Digit(b / 16), Digit(b % 16)] + HexText(s)
  {
    assert ([b] + s)[1..] == s;
  }

  lemma {:induction false} SumOfZeros(k: nat)
    ensures Sum(seq(k, _ => 0)) == 0
  {
    if k != 0 {
      SumOfZeros(k - 1);
      assert seq(k, _ => 0 as byte)[..k - 1] == seq(k - 1, _ => 0 as byte);
    }
  }

  lemma {:induction false} FieldsArePlain(v: char, s: seq<byte>)
    requires KnownType(v)
    ensures AllPlain(['S', v] + HexText(s))
  {
    HexTextIsPlain(s);
  }

  /** An address field of zeros and a checksum. */
  lemma {:induction false} FourZeros(c: byte)
    ensures var f: seq<byte> := [0, 0, 0, 0] + [c];
            Sum(f) == c && BigEndian(f[..4]) == 0 && f[4..4] == []
  {
    var z: seq<byte> := [0, 0, 0, 0];
    assert (z + [c])[..4] == z == BytesOfWord(0);
    BigEndianOfAddr(0);
    SumOfZeros(4);
    assert seq(4, _ => 0 as byte) == z;
    SumAppend(z, c);
  }

  lemma {:induction false} TwoZeros(c: byte)
    ensures var f: seq<byte> := [0, 0, c];
            Sum(f) == c && BigEndian(f[..2]) == 0 && f[2..2] == []
  {
    var f: seq<byte> := [0, 0, c];
    SumOfThree(0, 0, c);
    assert f[..2][..1] == [0] && f[..2][..1][..0] == [];
    assert BigEndian([0]) == 0;
  }

  lemma {:induction false} StartLineDecodes()
    ensures Decode(START_LINE) == Record(Start, 0, 0, []) && AllPlain(START_LINE)
  {
    hide Decode, HexText, Sum, BigEndian, AllPlain;
    var f: seq<byte> := [0, 0, 0xFC];
    TwoZeros(0xFC);
    StartLineText(f);
    FieldsArePlain('0', [3] + f);
    DecodesFields('0', 3, f);
  }

  lemma {:induction false} StartLineText(f: seq<byte>)
    requires f == [0, 0, 0xFC]
    ensures START_LINE == ['S', '0'] + HexText([3] + f)
  {
    HexTextCons(0xFC, []);
    HexTextCons(0, [0xFC]);
    HexTextCons(0, [0] + [0xFC]);
    HexTextCons(3, [0] + ([0] + [0xFC]));
    assert [3] + f == [3] + ([0] + ([0] + [0xFC])) && [0xFC] + [] == [0xFC];
  }

  lemma {:induction false} EndLineDecodes()
    ensures Decode(END_LINE) == Record(End, 0, 0, []) && AllPlain(END_LINE)
  {
    hide Decode, HexText, Sum, BigEndian, AllPlain;
    var f: seq<byte> := [0, 0, 0, 0] + [0xFA];
    FourZeros(0xFA);
    EndLineText(f);
    FieldsArePlain('7', [5] + f);
    DecodesFields('7', 5, f);
  }

  lemma {:induction false} EndLineText(f: seq<byte>)
    requires f == [0, 0, 0, 0] + [0xFA]
    ensures END_LINE == ['S', '7'] + HexText([5] + f)
  {
    HexTextCons(0xFA, []);
    HexTextCons(0, [0xFA]);
    HexTextCons(0, [0] + [0xFA]);
    HexTextCons(0, [0] + ([0] + [0xFA]));
    HexTextCons(0, [0] + ([0] + ([0] + [0xFA])));
    HexTextCons(5, [0] + ([0] + ([0] + ([0] + [0xFA]))));
    assert [5] + f == [5] + ([0] + ([0] + ([0] + ([0] + [0xFA])))) && [0xFA] + [] == [0xFA];
  }

  /** A checksummed S3 record that announces three bytes makes load_serial copy a negative number of bytes. */
  lemma {:induction false} ShortRecordIsWild(offset: int, ld: Loader)
    ensures LoadFrom("S30300000000FC\n", 0, offset, ld) == WildCopy
  {
    hide Decode, LoadFrom, Store, AllPlain;
    var text, input := "S30300000000FC", "S30300000000FC\n";
    assert input == text + "\n" && input[0..|input|] == input;
    ShortRecordDecodes();
    LoadStep(input, 0, text, offset, ld);
  }

  lemma {:induction false} ShortRecordDecodes()
    ensures Decode("S30300000000FC") == Record(Data, 0, -2, []) && AllPlain("S30300000000FC")
  {
    hide Decode, HexText, Sum, BigEndian, AllPlain;
    var f: seq<byte> := [0, 0, 0, 0] + [0xFC];
    FourZeros(0xFC);
    ShortRecordText(f);
    FieldsArePlain('3', [3] + f);
    DecodesFields('3', 3, f);
  }

  lemma {:induction false} ShortRecordText(f: seq<byte>)
    requires f == [0, 0, 0, 0] + [0xFC]
    ensures "S30300000000FC" == ['S', '3'] + HexText([3] + f)
  {
    HexTextCons(0xFC, []);
    HexTextCons(0, [0xFC]);
    HexTextCons(0, [0] + [0xFC]);
    HexTextCons(0, [0] + ([0] + [0xFC]));
    HexTextCons(0, [0] + ([0] + ([0] + [0xFC])));
    HexTextCons(3, [0] + ([0] + ([0] + ([0] + [0xFC]))));
    assert [3] + f == [3] + ([0] + ([0] + ([0] + ([0] + [0xFC])))) && [0xFC] + [] == [0xFC];
  }

  /** What save_serial sends, load_serial restores: the data at its relocated address, the
      rest of memory as before, and the number of bytes as file size. */
  lemma {:induction false} UploadThenLoad(addr: nat, data: seq<byte>, offset: int, mem: map<int, byte>)
    requires addr + |data| <= WORD && 0 < |data| < WORD
    requires 0 <= addr + offset && addr + offset + |data| <= WORD
    ensures LoadFrom(Upload(addr, data), 0, offset, Loader(mem, WORD - 1, 0))
         == Complete(0, |data|, Loader(MemWrite(mem, addr + offset, data), addr + offset, addr + offset + |data| - 1))
  {
    hide *;
    StoreIntoFresh(mem, addr + offset, data);
    var ld, ld' := Loader(mem, WORD - 1, 0), Store(Loader(mem, WORD - 1, 0), addr + offset, data);
    var input, lines, last := Upload(addr, data), DataLines(addr, data), END_LINE + "\n";
    UploadParts(addr, data);
    StartLineDecodes();
    EndLineDecodes();
    HereSplits(input, 0, START_LINE + "\n", lines + last);
    HereSplits(input, |START_LINE| + 1, lines, last);
    LoadStep(input, 0, START_LINE, offset, ld);
    LinesLoad(input, |START_LINE| + 1, addr, data, offset, ld);
    LoadStep(input, |START_LINE| + 1 + |lines|, END_LINE, offset, ld');
  }

  lemma {:induction false} StoreIntoFresh(mem: map<int, byte>, a: nat, data: seq<byte>)
    requires 0 < |data| < WORD && a + |data| <= WORD
    ensures WORD == 0x1_0000_0000
    ensures var ld := Store(Loader(mem, WORD - 1, 0), a, data);
            ld == Loader(MemWrite(mem, a, data), a, a + |data| - 1) && Size(ld) == |data|
  {
    hide MemWrite;
  }

  lemma {:induction false} UploadParts(addr: nat, data: seq<byte>)
    requires addr < WORD
    ensures Here(Upload(addr, data), 0, START_LINE + "\n" + (DataLines(addr, data) + (END_LINE + "\n")))
    ensures |START_LINE| < MAX_LINE && |END_LINE| < MAX_LINE
  {
    hide DataLines;
    var input := Upload(addr, data);
    assert input == START_LINE + "\n" + (DataLines(addr, data) + (END_LINE + "\n"));
    assert input[0..|input|] == input;
  }
}

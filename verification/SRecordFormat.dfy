/**
 S-Records as the format has them, with its tables written out: which text spells which bytes, how
 wide the address of each record type is, and what the decoder makes of every such line.
 */
module SRecordFormat {
  import opened Bytes
  import opened SRecord

  // ---------------------------------------------------------------- hexadecimal text

  const UPPER := "0123456789ABCDEF"
  const LOWER := "0123456789abcdef"

  ghost predicate Shows(c: char, d: int) { 0 <= d < 16 && (c == UPPER[d] || c == LOWER[d]) }

  lemma {:induction false} DigitShows(c: char, d: int)
    requires 0 <= d < 16
    ensures Hex1(c) == d <==> Shows(c, d)
  {
    if d < 10 {
      assert UPPER[d] == '0' + d as char && LOWER[d] == '0' + d as char by { DigitTable(d); }
    } else {
      assert UPPER[d] == 'A' + (d - 10) as char && LOWER[d] == 'a' + (d - 10) as char by { LetterTable(d); }
    }
  }

  lemma {:induction false} DigitTable(d: int)
    requires 0 <= d < 10
    ensures UPPER[d] == '0' + d as char && LOWER[d] == '0' + d as char
  {
  }

  lemma {:induction false} LetterTable(d: int)
    requires 10 <= d < 16
    ensures UPPER[d] == 'A' + (d - 10) as char && LOWER[d] == 'a' + (d - 10) as char
  {
  }

  /** Two digits to a byte, in either case. */
  ghost predicate Spells(t: string, s: seq<byte>) {
    |t| == 2 * |s| && forall i :: 0 <= i < |s| ==> Shows(t[2 * i], s[i] / 16) && Shows(t[2 * i + 1], s[i] % 16)
  }

  lemma {:induction false} PairShows(s: string, i: nat, b: byte)
    requires i + 2 <= |s|
    ensures Hex2(s, i) == b <==> Shows(s[i], b / 16) && Shows(s[i + 1], b % 16)
  {
    DigitShows(s[i], b / 16);
    DigitShows(s[i + 1], b % 16);
    hide Shows;
    HexDigits(Hex1(s[i]), Hex1(s[i + 1]), b);
  }

  lemma {:induction false} HexDigits(x: int, y: int, b: byte)
    requires -1 <= x < 16 && -1 <= y < 16
    ensures (if x < 0 || y < 0 then -1 else x * 16 + y) == b <==> x == b / 16 && y == b % 16
  {
  }

  /** The decoder reads a byte string from a line exactly where the line spells it. */
  lemma {:induction false} ReadsExactly(line: string, i: nat, s: seq<byte>)
    ensures HexBytes(line, i, |s|) == Some(s) <==>
              s == [] || (i + 2 * |s| <= |line| && Spells(line[i..i + 2 * |s|], s))
    decreases |s|
  {
    hide HexBytes, Spells, Shows, Hex2;
    if s == [] {
      ReadsNothing(line, i, s);
    } else {
      var n := |s| - 1;
      HexBytesSplit(line, i, n, 1);
      SplitValue(line, i, s);
      ReadsExactly(line, i, s[..n]);
      LastByte(line, i + 2 * n, s[n]);
      SpellsHere(line, i, s);
    }
  }

  lemma {:induction false} ReadsNothing(line: string, i: nat, s: seq<byte>)
    requires s == []
    ensures HexBytes(line, i, |s|) == Some(s)
  {
  }

  lemma {:induction false} SpellsHere(line: string, i: nat, s: seq<byte>)
    requires s != []
    ensures var n := |s| - 1;
            i + 2 * |s| <= |line| ==>
              (Spells(line[i..i + 2 * |s|], s) <==>
                 (n == 0 || Spells(line[i..i + 2 * n], s[..n])) && Hex2(line, i + 2 * n) == s[n])
  {
    hide Hex2, Shows;
    var n := |s| - 1;
    if i + 2 * |s| <= |line| {
      var t := line[i..i + 2 * |s|];
      SpellsAppend(t, s);
      PairShows(line, i + 2 * n, s[n]);
      assert t[..2 * n] == line[i..i + 2 * n] && t[2 * n] == line[i + 2 * n] && t[2 * n + 1] == line[i + 2 * n + 1];
    }
  }

  lemma {:induction false} LastByte(line: string, i: nat, b: byte)
    ensures HexBytes(line, i, 1) == Some([b]) <==> i + 2 <= |line| && Hex2(line, i) == b
  {
    assert HexBytes(line, i + 2, 0) == Some([]);
    if Hex2(line, i) >= 0 { assert [Hex2(line, i)] + [] == [Hex2(line, i)]; }
    if HexBytes(line, i, 1) == Some([b]) { assert [b][0] == b; }
  }

  lemma {:induction false} SplitValue(line: string, i: nat, s: seq<byte>)
    requires s != []
    requires HexBytes(line, i, |s| - 1 + 1) ==
             match HexBytes(line, i, |s| - 1)
             case None => None
             case Some(x) =>
               match HexBytes(line, i + 2 * (|s| - 1), 1)
               case None => None
               case Some(y) => Some(x + y)
    ensures HexBytes(line, i, |s|) == Some(s) <==>
              HexBytes(line, i, |s| - 1) == Some(s[..|s| - 1]) && HexBytes(line, i + 2 * (|s| - 1), 1) == Some([s[|s| - 1]])
  {
    hide HexBytes;
    var n := |s| - 1;
    var x, y := HexBytes(line, i, n), HexBytes(line, i + 2 * n, 1);
    assert s == s[..n] + [s[n]];
    if x.Some? && y.Some? {
      assert x.value + y.value == s <==> x.value == s[..n] && y.value == [s[n]] by {
        if x.value + y.value == s {
          assert x.value == (x.value + y.value)[..n] && y.value == (x.value + y.value)[n..];
        }
      }
    }
  }

  lemma {:induction false} SpellsAppend(t: string, s: seq<byte>)
    requires s != [] && |t| == 2 * |s|
    ensures var n := |s| - 1;
            Spells(t, s) <==> Spells(t[..2 * n], s[..n]) && Shows(t[2 * n], s[n] / 16) && Shows(t[2 * n + 1], s[n] % 16)
  {
    hide Shows;
  }

  // ---------------------------------------------------------------- records

  /** Address bytes of the record types: S0 S1 S5 S9 two, S2 S8 three, S3 S7 four. */
  function Width(v: char): nat {
    match v
    case '0' => 2
    case '1' => 2
    case '2' => 3
    case '3' => 4
    case '5' => 2
    case '7' => 4
    case '8' => 3
    case '9' => 2
    case _ => 0
  }

  ghost predicate KindIs(v: char, k: Kind) {
    match v
    case '0' => k == Start
    case '1' => k == Data
    case '2' => k == Data
    case '3' => k == Data
    case '5' => k == Count
    case '7' => k == End
    case '8' => k == End
    case '9' => k == End
    case _ => false
  }

  /** A line with a record of type v: count, address, data and checksum behind the first S, whatever stands around. */
  ghost predicate Holds(line: string, before: string, v: char, count: byte, addr: seq<byte>, data: seq<byte>, check: byte) {
    var fields := [count] + addr + data + [check];
    var p := |before|;
    && 'S' !in before && |line| >= p + 2 + 2 * |fields|
    && line[..p] == before && line[p] == 'S' && line[p + 1] == v
    && Spells(line[p + 2..p + 2 + 2 * |fields|], fields)
  }

  lemma {:induction false} TablesAgree(v: char)
    ensures Width(v) > 0 <==> KnownType(v)
    ensures KnownType(v) ==> Width(v) == AddrLen(v) && KindIs(v, KindOf(v))
  {
  }

  lemma {:induction false} FirstS(line: string, i: nat, p: nat)
    requires i <= p < |line| && line[p] == 'S' && forall k :: i <= k < p ==> line[k] != 'S'
    ensures AfterS(line, i) == p + 1
    decreases p - i
  {
    if i < p { FirstS(line, i + 1, p); }
  }

  lemma {:induction false} SpellsParts(t: string, c: byte, f: seq<byte>)
    requires Spells(t, [c] + f)
    ensures Spells(t[..2], [c]) && Spells(t[2..], f)
  {
    hide Shows;
    var s := [c] + f;
    assert s[0] == c && Shows(t[0], c / 16) && Shows(t[1], c % 16);
    forall i | 0 <= i < |f| ensures Shows(t[2..][2 * i], f[i] / 16) && Shows(t[2..][2 * i + 1], f[i] % 16) {
      assert s[i + 1] == f[i] && t[2..][2 * i] == t[2 * (i + 1)] && t[2..][2 * i + 1] == t[2 * (i + 1) + 1];
    }
  }

  /** Every such line is decoded by its fields, and is good exactly when its bytes add up to 255 modulo 256. */
  lemma {:induction false} RecordIsDecoded(line: string, before: string, v: char, count: byte, addr: seq<byte>, data: seq<byte>, check: byte, k: Kind)
    requires Holds(line, before, v, count, addr, data, check) && KindIs(v, k) && |addr| == Width(v)
    requires if v == '5' then data == [] else count == |addr| + |data| + 1
    ensures Decode(line) == if Sum([count] + addr + data + [check]) % 256 == 255 then Record(k, BigEndian(addr), |data|, data)
                            else BadChecksum
  {
    hide Spells, HexBytes, AfterS, Hex2, Sum, BigEndian, Width, KindIs, KindOf;
    TablesAgree(v);
    KindIsOne(v, k);
    var p, f := |before|, addr + data + [check];
    assert [count] + addr + data + [check] == [count] + f;
    FirstS(line, 0, p);
    var t := line[p + 2..p + 2 + 2 * |[count] + f|];
    SpellsParts(t, count, f);
    ReadsExactly(line, p + 2, [count]);
    LastByte(line, p + 2, count);
    assert t[..2] == line[p + 2..p + 4];
    ReadsExactly(line, p + 4, f);
    assert t[2..] == line[p + 4..p + 4 + 2 * |f|];
    LengthsAgree(v, count, |addr|, |data|);
    SumPrepend(count, f);
    assert f[..|addr|] == addr && f[|addr|..|addr| + |data|] == data;
  }

  lemma {:induction false} KindIsOne(v: char, k: Kind)
    requires KindIs(v, k)
    ensures KnownType(v) && KindOf(v) == k
  {
  }

  lemma {:induction false} LengthsAgree(v: char, count: nat, a: nat, d: nat)
    requires a == AddrLen(v) && if v == '5' then d == 0 else count == a + d + 1
    ensures BinLen(v, count) == d && DataLen(v, count) == d
  {
  }

  lemma {:induction false} AddressValue(addr: seq<byte>)
    ensures |addr| == 2 ==> BigEndian(addr) == Weighted(0, 0, addr[0], addr[1])
    ensures |addr| == 3 ==> BigEndian(addr) == Weighted(0, addr[0], addr[1], addr[2])
    ensures |addr| == 4 ==> BigEndian(addr) == Weighted(addr[0], addr[1], addr[2], addr[3])
  {
    if |addr| == 2 {
      ValueAppends([], addr[0]);
      ValueAppends([addr[0]], addr[1]);
      assert addr == [addr[0]] + [addr[1]] && [] + [addr[0]] == [addr[0]];
    } else if |addr| == 3 {
      AddressValue(addr[..2]);
      ValueAppends(addr[..2], addr[2]);
      assert addr == addr[..2] + [addr[2]];
    } else if |addr| == 4 {
      AddressValue(addr[..3]);
      ValueAppends(addr[..3], addr[3]);
      assert addr == addr[..3] + [addr[3]];
    }
  }

  /** A 32-bit number from its bytes. */
  function Weighted(a: int, b: int, c: int, d: int): int { a * 0x100_0000 + b * 0x1_0000 + c * 0x100 + d }

  lemma {:induction false} ValueAppends(s: seq<byte>, b: byte)
    ensures BigEndian(s + [b]) == BigEndian(s) * 256 + b && BigEndian([]) == 0
  {
    assert (s + [b])[..|s + [b]| - 1] == s;
  }

  /** The address bytes of addr in a field of the given width. */
  function AddressField(addr: nat, width: nat): seq<byte>
    requires 2 <= width <= 4 && addr < (if width == 2 then 0x1_0000 else if width == 3 then 0x100_0000 else 0x1_0000_0000)
  {
    if width == 2 then [addr / 0x100, addr % 0x100]
    else if width == 3 then [addr / 0x1_0000, addr / 0x100 % 0x100, addr % 0x100]
    else [addr / 0x100_0000, addr / 0x1_0000 % 0x100, addr / 0x100 % 0x100, addr % 0x100]
  }

  lemma {:induction false} FieldValue(addr: nat, width: nat)
    requires 2 <= width <= 4 && addr < (if width == 2 then 0x1_0000 else if width == 3 then 0x100_0000 else 0x1_0000_0000)
    ensures |AddressField(addr, width)| == width && BigEndian(AddressField(addr, width)) == addr
  {
    hide BigEndian;
    AddressValue(AddressField(addr, width));
    assert addr / 0x1_0000 == addr / 0x100 / 0x100 && addr / 0x100_0000 == addr / 0x100 / 0x100 / 0x100;
  }

  /**
   All record types: S1, S2 and S3 lines with two, three and four address bytes load their data there,
   S9, S8 and S7 lines end the transfer with that address, S0 starts it and S5 is a count.
   */
  lemma {:induction false} EveryRecordDecodes(line: string, before: string, v: char, addr: nat, data: seq<byte>, check: byte, k: Kind)
    requires KindIs(v, k) && Width(v) + |data| + 1 < 256 && (v == '5' ==> data == [])
    requires addr < (if Width(v) == 2 then 0x1_0000 else if Width(v) == 3 then 0x100_0000 else 0x1_0000_0000)
    requires Holds(line, before, v, Width(v) + |data| + 1, AddressField(addr, Width(v)), data, check)
    ensures Decode(line) == if Sum([Width(v) + |data| + 1] + AddressField(addr, Width(v)) + data + [check]) % 256 == 255
                            then Record(k, addr, |data|, data) else BadChecksum
  {
    hide Holds, BigEndian, Sum, AddressField;
    FieldValue(addr, Width(v));
    RecordIsDecoded(line, before, v, Width(v) + |data| + 1, AddressField(addr, Width(v)), data, check, k);
  }

  /** Lines that are no records. */
  lemma {:induction false} OtherLines(line: string, p: nat)
    requires p < |line| && line[p] == 'S' && forall k :: 0 <= k < p ==> line[k] != 'S'
    ensures p + 1 == |line| ==> Decode(line) == Empty
    ensures p + 1 < |line| ==>
              && (!(exists b: byte :: p + 4 <= |line| && Spells(line[p + 2..p + 4], [b])) ==> Decode(line) == NoSRecord)
              && ((exists b: byte :: p + 4 <= |line| && Spells(line[p + 2..p + 4], [b])) && Width(line[p + 1]) == 0 ==> Decode(line) == BadType)
  {
    FirstS(line, 0, p);
    if p + 1 < |line| {
      TablesAgree(line[p + 1]);
      hide AfterS, Hex2, Spells, Width, HexBytes;
      var c := Hex2(line, p + 2);
      forall b: byte ensures p + 4 <= |line| && Spells(line[p + 2..p + 4], [b]) <==> c == b {
        ReadsExactly(line, p + 2, [b]);
        LastByte(line, p + 2, b);
        ShortIsBad(line, p + 2);
      }
      if c >= 0 { var b: byte := c; assert p + 4 <= |line| && Spells(line[p + 2..p + 4], [b]); }
    }
  }

  lemma {:induction false} ShortIsBad(line: string, i: nat)
    ensures i + 2 > |line| ==> Hex2(line, i) == -1
  {
  }

  lemma {:induction false} NoRecordAtAll(line: string)
    requires 'S' !in line
    ensures Decode(line) == Empty
  {
    NoS(line, 0);
  }

  lemma {:induction false} NoS(line: string, i: nat)
    requires i <= |line| && 'S' !in line
    ensures AfterS(line, i) == |line|
    decreases |line| - i
  {
    if i < |line| {
      assert line[i] in line;
      NoS(line, i + 1);
    }
  }
}

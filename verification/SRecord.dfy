/**
 Motorola S-Records as text: hexadecimal fields and the line decoder srec_decode.
 */
module SRecord {
  import opened Bytes

  const WORD := 0x1_0000_0000           // ulong is 32 bits wide
  const MAX_LINE := 516                 // SREC_MAXRECLEN
  const BYTES_PER_RECORD := 16

  datatype Option<+T> = None | Some(value: T)

  // ---------------------------------------------------------------- hexadecimal text

  /** "0123456789ABCDEF"[d] */
  function Digit(d: nat): char
    requires d < 16
  {
    if d < 10 then '0' + d as char else 'A' + (d - 10) as char
  }

  function HexText(s: seq<byte>): (t: string)
    ensures |t| == 2 * |s|
  {
    if s == [] then "" else [Digit(s[0] / 16), Digit(s[0] % 16)] + HexText(s[1..])
  }

  lemma {:induction false} HexTextConcat(a: seq<byte>, b: seq<byte>)
    ensures HexText(a + b) == HexText(a) + HexText(b)
  {
    if a == [] {
      assert a + b == b;
    } else {
      assert (a + b)[1..] == a[1..] + b;
      HexTextConcat(a[1..], b);
    }
  }

  /** hex1_bin */
  function Hex1(c: char): int {
    if '0' <= c <= '9' then c as int - '0' as int
    else if 'a' <= c <= 'f' then c as int + 10 - 'a' as int
    else if 'A' <= c <= 'F' then c as int + 10 - 'A' as int
    else -1
  }

  /** hex2_bin at position i of a NUL-terminated string: -1 unless two hex digits follow. */
  function Hex2(s: string, i: nat): (r: int)
    ensures -1 <= r < 256
  {
    if i >= |s| || Hex1(s[i]) < 0 then -1
    else if i + 1 >= |s| || Hex1(s[i + 1]) < 0 then -1
    else Hex1(s[i]) * 16 + Hex1(s[i + 1])
  }

  /** k bytes in hexadecimal from position i. */
  function HexBytes(s: string, i: nat, k: nat): (r: Option<seq<byte>>)
    ensures r.Some? ==> |r.value| == k
    decreases k
  {
    if k == 0 then Some([])
    else if Hex2(s, i) < 0 then None
    else match HexBytes(s, i + 2, k - 1)
      case None => None
      case Some(rest) => Some([Hex2(s, i)] + rest)
  }

  lemma {:induction false} DigitRoundTrip(d: nat)
    requires d < 16
    ensures Hex1(Digit(d)) == d
  {
  }

  /** Reading hexadecimal undoes writing it, wherever it stands in a line. */
  lemma {:induction false} HexRoundTrip(before: string, s: seq<byte>, after: string)
    ensures HexBytes(before + HexText(s) + after, |before|, |s|) == Some(s)
    decreases |s|
  {
    if s != [] {
      var all := before + HexText(s) + after;
      var pair := [Digit(s[0] / 16), Digit(s[0] % 16)];
      assert all == (before + pair) + HexText(s[1..]) + after;
      HexRoundTrip(before + pair, s[1..], after);
      DigitRoundTrip(s[0] / 16);
      DigitRoundTrip(s[0] % 16);
      assert all[|before|] == pair[0] && all[|before| + 1] == pair[1];
      assert [s[0]] + s[1..] == s;
    }
  }

  lemma {:induction false} HexBytesSplit(s: string, i: nat, a: nat, b: nat)
    ensures HexBytes(s, i, a + b) ==
            match HexBytes(s, i, a)
            case None => None
            case Some(x) =>
              match HexBytes(s, i + 2 * a, b)
              case None => None
              case Some(y) => Some(x + y)
    decreases a
  {
    if a != 0 {
      HexBytesSplit(s, i + 2, a - 1, b);
      if Hex2(s, i) >= 0 && HexBytes(s, i + 2, a - 1).Some? && HexBytes(s, i + 2 * a, b).Some? {
        var x, y := HexBytes(s, i + 2, a - 1).value, HexBytes(s, i + 2 * a, b).value;
        assert [Hex2(s, i)] + (x + y) == [Hex2(s, i)] + x + y;
      }
    } else if HexBytes(s, i, b).Some? {
      assert [] + HexBytes(s, i, b).value == HexBytes(s, i, b).value;
    }
  }

  // ---------------------------------------------------------------- decoding a line

  datatype Kind = Start | Data | Count | End

  /** binlen is the byte count handed to the caller; for a too small count field it is negative. */
  datatype Decoded =
    | Record(kind: Kind, addr: nat, binlen: int, data: seq<byte>)
    | Empty
    | BadType
    | NoSRecord
    | BadChecksum

  function BigEndian(s: seq<byte>): nat {
    if s == [] then 0 else BigEndian(s[..|s| - 1]) * 256 + s[|s| - 1]
  }

  function AfterS(line: string, i: nat): (r: nat)
    requires i <= |line|
    ensures r <= |line|
    decreases |line| - i
  {
    if i == |line| then i else if line[i] == 'S' then i + 1 else AfterS(line, i + 1)
  }

  predicate KnownType(v: char) { '0' <= v <= '9' && v != '4' && v != '6' }

  function KindOf(v: char): Kind
    requires KnownType(v)
  {
    if v == '0' then Start else if v == '5' then Count else if v <= '3' then Data else End
  }

  /** Bytes in the address field. */
  function AddrLen(v: char): nat {
    if v == '3' || v == '7' then 4 else if v == '2' || v == '8' then 3 else 2
  }

  /** What is left of the announced count behind address and checksum. */
  function BinLen(v: char, count: nat): int {
    if v == '5' then 0 else count - AddrLen(v) - 1
  }

  /** The bytes that the data loop reads. */
  function DataLen(v: char, count: nat): nat { if BinLen(v, count) < 0 then 0 else BinLen(v, count) }

  /** What an unsigned char keeps of a sum. */
  function Modulo(x: nat): nat { x % 256 }

  /** The meaning of one line. The checksum is the one's complement of the byte sum, so the
      sum of all bytes of a good record ends in 0xFF. */
  function Decode(line: string): Decoded {
    var p := AfterS(line, 0);
    if p == |line| then Empty
    else if Hex2(line, p + 1) < 0 then NoSRecord
    else if !KnownType(line[p]) then BadType
    else DecodeFields(line, p + 3, line[p], Hex2(line, p + 1))
  }

  /** Address, data and checksum of a record of type v announcing count bytes. */
  function DecodeFields(line: string, i: nat, v: char, count: nat): Decoded
    requires KnownType(v)
  {
    var a, d := AddrLen(v), DataLen(v, count);
    match HexBytes(line, i, a + d + 1)
    case None => NoSRecord
    case Some(f) =>
      if Modulo(count + Sum(f)) != 255 then BadChecksum
      else Record(KindOf(v), BigEndian(f[..a]), BinLen(v, count), f[a..a + d])
  }

  /** srec_decode, stepping through the line. */
  method SrecDecode(line: string) returns (r: Decoded)
    ensures r == Decode(line)
  {
    var i := 0;
    while i < |line| && line[i] != 'S'
      invariant i <= |line| && AfterS(line, 0) == AfterS(line, i)
    {
      i := i + 1;
    }
    if i < |line| { i := i + 1; }
    if i == |line| { return Empty; }
    var v := line[i];
    var count := Hex2(line, i + 1);
    if count < 0 { return NoSRecord; }
    if !KnownType(v) { return BadType; }
    r := ReadFields(line, i + 3, v, count);
  }

  method ReadFields(line: string, i: nat, v: char, count: nat) returns (r: Decoded)
    requires KnownType(v)
    ensures r == DecodeFields(line, i, v, count)
  {
    hide *;
    FieldByField(line, i, v, count);
    var a, d := AddrLen(v), DataLen(v, count);
    var x, chksum := ReadField(line, i, a, count);
    if x.None? { return NoSRecord; }
    var y, z;
    y, chksum := ReadField(line, i + 2 * a, d, chksum);
    if y.None? { return NoSRecord; }
    z, chksum := ReadField(line, i + 2 * (a + d), 1, chksum);
    if z.None? { return NoSRecord; }
    r := if chksum != 255 then BadChecksum else Record(KindOf(v), BigEndian(x.value), BinLen(v, count), y.value);
  }

  /** DecodeFields, one field at a time. */
  lemma {:induction false} FieldByField(line: string, i: nat, v: char, count: nat)
    requires KnownType(v)
    ensures var a, d := AddrLen(v), DataLen(v, count);
            var x, y := HexBytes(line, i, a), HexBytes(line, i + 2 * a, d);
            var z := HexBytes(line, i + 2 * (a + d), 1);
            DecodeFields(line, i, v, count) ==
            if x.None? || y.None? || z.None? then NoSRecord
            else if Modulo(Modulo(Modulo(count + Sum(x.value)) + Sum(y.value)) + Sum(z.value)) != 255
            then BadChecksum
            else Record(KindOf(v), BigEndian(x.value), BinLen(v, count), y.value)
  {
    hide HexBytes, Sum, BigEndian, Modulo, AddrLen, DataLen, BinLen, KindOf;
    var a, d := AddrLen(v), DataLen(v, count);
    var x, y := HexBytes(line, i, a), HexBytes(line, i + 2 * a, d);
    var z := HexBytes(line, i + 2 * (a + d), 1);
    HexBytesSplit(line, i, a, d + 1);
    HexBytesSplit(line, i + 2 * a, d, 1);
    if x.Some? && y.Some? && z.Some? {
      var f := x.value + (y.value + z.value);
      assert f[..a] == x.value && f[a..a + d] == y.value;
      FieldSums(count, x.value, y.value, z.value);
    }
  }

  /** Adding field after field modulo 256 is the sum of all fields modulo 256. */
  lemma {:induction false} FieldSums(count: nat, a: seq<byte>, b: seq<byte>, c: seq<byte>)
    ensures Modulo(Modulo(Modulo(count + Sum(a)) + Sum(b)) + Sum(c)) == Modulo(count + Sum(a + (b + c)))
  {
    SumConcat(b, c);
    SumConcat(a, b + c);
    AddModulo(count + Sum(a), Sum(b));
    AddModulo(count + Sum(a) + Sum(b), Sum(c));
  }

  /** The loop body that srec_decode repeats for every field: convert, and add up modulo 256. */
  method ReadField(line: string, i0: nat, k: nat, chksum0: nat) returns (r: Option<seq<byte>>, chksum: nat)
    ensures r == HexBytes(line, i0, k)
    ensures r.Some? ==> chksum == Modulo(chksum0 + Sum(r.value))
  {
    var i, j := i0, 0;
    var f: seq<byte> := [];
    chksum := Modulo(chksum0);
    assert HexBytes(line, i0, 0) == Some(f) && Sum(f) == 0;
    hide HexBytes, Sum, Hex2, Modulo;
    while j < k
      invariant j <= k && i == i0 + 2 * j
      invariant HexBytes(line, i0, j) == Some(f) && chksum == Modulo(chksum0 + Sum(f))
    {
      var b := Hex2(line, i);
      FieldGrows(line, i0, j, k, f);
      if b < 0 { return None, 0; }
      AddModulo(chksum0 + Sum(f), b);
      f, chksum := f + [b], Modulo(chksum + b);
      i, j := i + 2, j + 1;
    }
    r := Some(f);
  }

  lemma {:induction false} AddModulo(x: nat, b: nat)
    ensures Modulo(Modulo(x) + b) == Modulo(x + b)
  {
  }

  /** One more byte of the field area, or the whole area is malformed. */
  lemma {:induction false} FieldGrows(line: string, start: nat, k: nat, total: nat, f: seq<byte>)
    requires k < total && HexBytes(line, start, k) == Some(f)
    ensures var b := Hex2(line, start + 2 * k);
            if b < 0 then HexBytes(line, start, total) == None
            else && HexBytes(line, start, k + 1) == Some(f + [b])
                 && Sum(f + [b]) == Sum(f) + b
  {
    var b := Hex2(line, start + 2 * k);
    HexBytesSplit(line, start, k, total - k);
    HexBytesSplit(line, start, k, 1);
    if b >= 0 {
      assert HexBytes(line, start + 2 * k + 2, 0) == Some([]) && [b] + [] == [b];
      assert HexBytes(line, start + 2 * k, 1) == Some([b]);
      SumAppend(f, b);
    }
  }
}

/**
 The line reader and the loader's bookkeeping of load_serial, said by positions and bounds, and an
 upload written out.
 */
module SerialLines {
  import opened Bytes
  import opened SRecord
  import opened SerialRecords

  // ---------------------------------------------------------------- lines

  /** Not a line end, a NUL or ^C. */
  ghost predicate Ordinary(c: char) { c as int !in {0, 3, 10, 13} }

  ghost predicate OrdinaryRun(input: string, pos: nat, n: nat) {
    pos + n <= |input| && forall i :: pos <= i < pos + n ==> Ordinary(input[i])
  }

  /** The n characters before the first special one, or before the buffer is full, decide everything. */
  lemma {:induction false} ReadLineIs(input: string, pos: nat, room: nat, n: nat)
    requires pos <= |input| && n <= room && OrdinaryRun(input, pos, n)
    ensures n == room ==> ReadLine(input, pos, room) == Line(input[pos..pos + n], pos + n)
    ensures n < room && pos + n == |input| ==> ReadLine(input, pos, room) == NoInput
    ensures n < room && pos + n < |input| && input[pos + n] as int in {10, 13} ==>
              ReadLine(input, pos, room) == Line(input[pos..pos + n], pos + n + 1)
    ensures n < room && pos + n < |input| && input[pos + n] as int in {0, 3} ==> ReadLine(input, pos, room) == Stop
    decreases n
  {
    if n == 0 {
      assert input[pos..pos] == "";
    } else {
      assert Ordinary(input[pos]);
      ReadLineIs(input, pos + 1, room - 1, n - 1);
      assert input[pos..pos + n] == [input[pos]] + input[pos + 1..pos + n];
    }
  }

  // ---------------------------------------------------------------- bounds

  function StoreAll(ld: Loader, recs: seq<(nat, seq<byte>)>): Loader {
    if recs == [] then ld
    else Store(StoreAll(ld, recs[..|recs| - 1]), recs[|recs| - 1].0, recs[|recs| - 1].1)
  }

  /** The last address of a record, in 32 bits. */
  function LastOf(r: (nat, seq<byte>)): int { (r.0 + |r.1| - 1) % 0x1_0000_0000 }

  /** In whatever order records come, the first address is the lowest and the last the highest. */
  lemma {:induction false} BoundsAreExtremes(ld: Loader, recs: seq<(nat, seq<byte>)>)
    ensures var r := StoreAll(ld, recs);
            && r.start <= ld.start && r.end >= ld.end
            && (forall i :: 0 <= i < |recs| ==> r.start <= recs[i].0 && r.end >= LastOf(recs[i]))
            && (r.start == ld.start || exists i :: 0 <= i < |recs| && r.start == recs[i].0)
            && (r.end == ld.end || exists i :: 0 <= i < |recs| && r.end == LastOf(recs[i]))
  {
    if recs != [] {
      var n := |recs| - 1;
      BoundsAreExtremes(ld, recs[..n]);
      hide MemWrite;
      var r0, r := StoreAll(ld, recs[..n]), StoreAll(ld, recs);
      forall i | 0 <= i < |recs| ensures r.start <= recs[i].0 && r.end >= LastOf(recs[i]) {
        if i < n { assert recs[..n][i] == recs[i]; }
      }
      if r.start == r0.start && r0.start != ld.start {
        var i :| 0 <= i < n && r0.start == recs[..n][i].0;
        assert r.start == recs[i].0;
      }
      if r.end == r0.end && r0.end != ld.end {
        var i :| 0 <= i < n && r0.end == LastOf(recs[..n][i]);
        assert r.end == LastOf(recs[i]);
      }
    }
  }

  // ---------------------------------------------------------------- an upload

  /** Two bytes at 0x1000: S30700001000AA1F1F between the header and the end record. */
  lemma {:induction false} UploadWrittenOut()
    ensures Upload(0x1000, [0xAA, 0x1F])
         == "S0030000FC" + "\n" + ("S3" + ("0700" + "0010" + ("00AA" + "1F1F")) + "\n") + "S70500000000FA" + "\n"
  {
    var data: seq<byte> := [0xAA, 0x1F];
    var f: seq<byte> := [7, 0, 0, 0x10, 0, 0xAA, 0x1F];
    assert Checked(0x1000, data) == f;
    SevenBytes(f);
    assert Checksum(0x1000, data) == 0x1F;
    EightBytes(f + [0x1F]);
    hide HexText;
    var line := DataLine(0x1000, data);
    assert line == "S3" + ("0700" + "0010" + ("00AA" + "1F1F"));
    hide DataLine;
    assert DataLines(0x1000, data) == line + "\n";
  }

  lemma {:induction false} SevenBytes(f: seq<byte>)
    requires f == [7, 0, 0, 0x10, 0, 0xAA, 0x1F]
    ensures Sum(f) == 224
  {
    SumOfThree(7, 0, 0);
    SumAppend([7, 0, 0], 0x10);
    SumAppend([7, 0, 0] + [0x10], 0);
    SumAppend([7, 0, 0] + [0x10] + [0], 0xAA);
    SumAppend([7, 0, 0] + [0x10] + [0] + [0xAA], 0x1F);
    assert f == [7, 0, 0] + [0x10] + [0] + [0xAA] + [0x1F];
  }

  lemma {:induction false} EightBytes(s: seq<byte>)
    requires s == [7, 0, 0, 0x10, 0, 0xAA, 0x1F] + [0x1F]
    ensures HexText(s) == "0700" + "0010" + ("00AA" + "1F1F")
  {
    var p: seq<byte>, q: seq<byte>, r: seq<byte>, u: seq<byte> := [7, 0], [0, 0x10], [0, 0xAA], [0x1F, 0x1F];
    hide HexText, Digit;
    FourTexts();
    HexTextConcat(p, q);
    HexTextConcat(r, u);
    HexTextConcat(p + q, r + u);
    assert s == p + q + (r + u);
  }

  lemma {:induction false} FourTexts()
    ensures HexText([7, 0]) == "0700" && HexText([0, 0x10]) == "0010"
    ensures HexText([0, 0xAA]) == "00AA" && HexText([0x1F, 0x1F]) == "1F1F"
  {
    hide HexText;
    HexOfTwo(7, 0);
    HexOfTwo(0, 0x10);
    HexOfTwo(0, 0xAA);
    HexOfTwo(0x1F, 0x1F);
  }

  lemma {:induction false} HexOfTwo(a: byte, b: byte)
    ensures HexText([a, b]) == [Digit(a / 16), Digit(a % 16), Digit(b / 16), Digit(b % 16)]
  {
    assert HexText([]) == "";
    HexTextCons(b, []);
    HexTextCons(a, [b]);
    assert [b] + [] == [b] && [a] + [b] == [a, b];
  }
}

/**
 Device-tree property values: the heuristic printer print_data, the command-line parser
 fdt_parse_prop with simple_strtoul beneath it, and the round trip between the two.
 */
module FdtProperty {
  import opened Bytes

  const NUL: byte := 0
  const NEWLINE: byte := 10
  const BLANK: byte := 0x20
  const LT: byte := 0x3C        // '<'
  const GT: byte := 0x3E        // '>'
  const OPEN: byte := 0x5B      // '['
  const CLOSE: byte := 0x5D     // ']'
  const ZERO: byte := 0x30      // '0'
  const EX: byte := 0x78        // 'x'

  const MAX_DUMP := 64          // CONFIG_CMD_FDT_MAX_DUMP
  const SCRATCHPAD := 1024      // size of the data buffer of "fdt set"
  const WORD := 0x1_0000_0000

  /** A NUL-terminated argument, without its NUL. */
  ghost predicate CString(s: seq<byte>) { NUL !in s }

  function CharAt(s: seq<byte>, i: nat): byte {
    if i < |s| then s[i] else NUL
  }

  // ---------------------------------------------------------------- simple_strtoul

  /** The value of a hexadecimal digit, or 16. */
  function DigitValue(c: byte): (r: nat)
    ensures r <= 16
  {
    if 0x30 <= c <= 0x39 then c - 0x30
    else if 0x61 <= c <= 0x66 then c - 0x61 + 10
    else if 0x41 <= c <= 0x46 then c - 0x41 + 10
    else 16
  }

  /** Number and end position. */
  datatype Number = Number(value: nat, end: nat)

  function Digits(s: seq<byte>, i: nat, base: nat, acc: nat): (r: Number)
    requires i <= |s| && base <= 16
    ensures i <= r.end <= |s|
    decreases |s| - i
  {
    if i < |s| && DigitValue(s[i]) < base then Digits(s, i + 1, base, (acc * base + DigitValue(s[i])) % WORD)
    else Number(acc, i)
  }

  function Strtoul(s: seq<byte>, i: nat, base: nat): (r: Number)
    requires i <= |s| && base <= 16
    ensures i <= r.end <= |s|
  {
    if CharAt(s, i) != ZERO then Digits(s, i, if base == 0 then 10 else base, 0)
    else if CharAt(s, i + 1) == EX && DigitValue(CharAt(s, i + 2)) < 16 then Digits(s, i + 2, 16, 0)
    else Digits(s, i + 1, if base == 0 then 8 else base, 0)
  }

  // ---------------------------------------------------------------- the parser

  datatype Parsed =
    | Value(bytes: seq<byte>)
    | Malformed
    | OffTheEnd        // the code reads past the argument array
    | Overflow         // the code stores past its data buffer

  function SkipBlanks(s: seq<byte>, i: nat): (r: nat)
    requires i <= |s|
    ensures i <= r <= |s|
    decreases |s| - i
  {
    if i < |s| && s[i] == BLANK then SkipBlanks(s, i + 1) else i
  }

  /** The "<...>" branch, from character i of argument k. */
  function ParseCells(args: seq<seq<byte>>, k: nat, i: nat, acc: seq<byte>): Parsed
    requires k <= |args| && (if k < |args| then i <= |args[k]| else i == 0)
    decreases |args| - k, if k < |args| then |args[k]| - i else 0
  {
    if k == |args| then OffTheEnd
    else if CharAt(args[k], i) == GT then Value(acc)
    else if i == |args[k]| then ParseCells(args, k + 1, 0, acc)
    else
      var n := Strtoul(args[k], i, 0);
      if |acc| + 4 > SCRATCHPAD then Overflow
      else if n.end == i then Malformed
      else ParseCells(args, k, SkipBlanks(args[k], n.end), acc + BytesOfWord(n.value % WORD))
  }

  /** The "[...]" branch. */
  function ParseStream(args: seq<seq<byte>>, k: nat, i: nat, acc: seq<byte>): Parsed
    requires k <= |args| && (if k < |args| then i <= |args[k]| else i == 0)
    decreases |args| - k, if k < |args| then |args[k]| - i else 0
  {
    if k == |args| then OffTheEnd
    else
      var j := SkipBlanks(args[k], i);
      if CharAt(args[k], j) == CLOSE then Value(acc)
      else if j == |args[k]| then ParseStream(args, k + 1, 0, acc)
      else if DigitValue(args[k][j]) == 16 then Malformed
      else
        StrtoulAdvances(args[k], j);
        var n := Strtoul(args[k], j, 16);
        if |acc| + 1 > SCRATCHPAD then Overflow
        else ParseStream(args, k, n.end, acc + [n.value % 256])
  }

  lemma {:induction false} StrtoulAdvances(s: seq<byte>, i: nat)
    requires i < |s| && DigitValue(s[i]) < 16
    ensures Strtoul(s, i, 16).end > i
  {
  }

  function JoinStrings(args: seq<seq<byte>>): seq<byte> {
    if args == [] then [] else args[0] + [NUL] + JoinStrings(args[1..])
  }

  /** fdt_parse_prop */
  function Parse(args: seq<seq<byte>>): Parsed
    requires args != []
  {
    if CharAt(args[0], 0) == LT then ParseCells(args, 0, 1, [])
    else if CharAt(args[0], 0) == OPEN then ParseStream(args, 0, 1, [])
    else if |JoinStrings(args)| > SCRATCHPAD then Overflow
    else Value(JoinStrings(args))
  }

  // ---------------------------------------------------------------- printed numbers

  function HexDigit(d: nat): (c: byte)
    requires d < 16
    ensures DigitValue(c) == d
  {
    if d < 10 then 0x30 + d else 0x61 + (d - 10)
  }

  /** v with exactly k lower-case hexadecimal digits. */
  function Hex(v: nat, k: nat): (s: seq<byte>)
    ensures |s| == k
    ensures forall j :: 0 <= j < k ==> DigitValue(s[j]) < 16
  {
    if k == 0 then [] else Hex(v / 16, k - 1) + [HexDigit(v % 16)]
  }

  function Pow16(k: nat): nat { if k == 0 then 1 else 16 * Pow16(k - 1) }

  /** The number a run of digits stands for, continuing from acc. */
  function Fold(acc: nat, ds: seq<byte>): nat {
    if ds == [] then acc
    else (Fold(acc, ds[..|ds| - 1]) * 16 + DigitValue(ds[|ds| - 1])) % WORD
  }

  lemma {:induction false} HexFolds(v: nat, k: nat)
    requires v < Pow16(k) && v < WORD
    ensures Fold(0, Hex(v, k)) == v
  {
    if k > 0 {
      HexFolds(v / 16, k - 1);
      FoldAppend(0, Hex(v / 16, k - 1), HexDigit(v % 16));
    }
  }

  lemma {:induction false} FoldAppend(acc: nat, ds: seq<byte>, d: byte)
    ensures Fold(acc, ds + [d]) == (Fold(acc, ds) * 16 + DigitValue(d)) % WORD
  {
    assert (ds + [d])[..|ds + [d]| - 1] == ds;
  }

  lemma {:induction false} FoldNothing(acc: nat, ds: seq<byte>)
    requires ds == []
    ensures Fold(acc, ds) == acc
  {
  }

  lemma {:induction false} DigitsRun(s: seq<byte>, i: nat, j: nat, acc: nat)
    requires i <= j <= |s|
    requires forall m :: i <= m < j ==> DigitValue(s[m]) < 16
    ensures Digits(s, i, 16, acc) == Digits(s, j, 16, Fold(acc, s[i..j]))
  {
    hide Fold;
    if i == j {
      FoldNothing(acc, s[i..j]);
    } else {
      DigitsRun(s, i, j - 1, acc);
      FoldAppend(acc, s[i..j - 1], s[j - 1]);
      assert s[i..j] == s[i..j - 1] + [s[j - 1]];
      assert DigitValue(s[j - 1]) < 16;
    }
  }

  ghost predicate NoDigitAt(s: seq<byte>, i: nat) { DigitValue(CharAt(s, i)) == 16 }

  /** A printed number that no digit follows is read back, whatever stands around it. */
  lemma {:induction false} HexReads(s: seq<byte>, i: nat, v: nat, k: nat)
    requires i + k <= |s| && s[i..i + k] == Hex(v, k) && NoDigitAt(s, i + k)
    requires v < Pow16(k) && v < WORD
    ensures Digits(s, i, 16, 0) == Number(v, i + k)
  {
    forall m | i <= m < i + k ensures DigitValue(s[m]) < 16 {
      assert s[m] == s[i..i + k][m - i];
    }
    DigitsRun(s, i, i + k, 0);
    HexFolds(v, k);
  }

  /** "0x%08x" */
  function CellWord(v: nat): (w: seq<byte>)
    ensures |w| == 10
  {
    [ZERO, EX] + Hex(v, 8)
  }

  lemma {:induction false} CellReads(s: seq<byte>, i: nat, v: nat)
    requires i + 10 <= |s| && s[i..i + 10] == CellWord(v) && NoDigitAt(s, i + 10) && v < WORD
    ensures Strtoul(s, i, 0) == Number(v, i + 10)
  {
    var w := CellWord(v);
    assert s[i] == s[i..i + 10][0] == ZERO;
    assert s[i + 1] == s[i..i + 10][1] == EX;
    assert s[i + 2] == s[i..i + 10][2] == Hex(v, 8)[0];
    assert s[i + 2..i + 10] == s[i..i + 10][2..] == Hex(v, 8);
    HexReads(s, i + 2, v, 8);
  }

  lemma {:induction false} ByteReads(s: seq<byte>, i: nat, v: byte)
    requires i + 2 <= |s| && s[i..i + 2] == Hex(v, 2) && NoDigitAt(s, i + 2)
    ensures Strtoul(s, i, 16) == Number(v, i + 2)
  {
    assert s[i] == s[i..i + 2][0] && s[i + 1] == s[i..i + 2][1];
    HexReads(s, i, v, 2);
  }

  // ---------------------------------------------------------------- text cut into arguments

  /** Arguments put back together with one blank between neighbours. */
  function Join(args: seq<seq<byte>>): (t: seq<byte>)
    requires args != []
    ensures |t| >= |args[0]| && t[..|args[0]|] == args[0]
    ensures |args| == 1 ==> t == args[0]
    ensures |args| > 1 ==> |t| > |args[0]| && t[|args[0]|] == BLANK
  {
    if |args| == 1 then args[0] else args[0] + [BLANK] + Join(args[1..])
  }

  /** What is still to be read at character i of argument k. */
  ghost function Rest(args: seq<seq<byte>>, k: nat, i: nat): (t: seq<byte>)
    requires k < |args| && i <= |args[k]|
    ensures |t| >= |args[k]| - i
    ensures forall j :: 0 <= j < |args[k]| - i ==> t[j] == args[k][i + j]
    ensures k + 1 < |args| ==> |t| > |args[k]| - i && t[|args[k]| - i] == BLANK
    ensures k + 1 == |args| ==> |t| == |args[k]| - i
  {
    var all := Join(args[k..]);
    assert all[..|args[k]|] == args[k];
    forall j | 0 <= j < |args[k]| - i ensures all[i..][j] == args[k][i + j] {
      assert all[i + j] == all[..|args[k]|][i + j];
    }
    all[i..]
  }

  lemma {:induction false} RestAdvances(args: seq<seq<byte>>, k: nat, i: nat, d: nat)
    requires k < |args| && i + d <= |args[k]|
    ensures d <= |Rest(args, k, i)| && Rest(args, k, i + d) == Rest(args, k, i)[d..]
  {
  }

  lemma {:induction false} RestOfNext(args: seq<seq<byte>>, k: nat)
    requires k + 1 < |args|
    ensures Rest(args, k, |args[k]|) == [BLANK] + Rest(args, k + 1, 0)
  {
    assert args[k..][1..] == args[k + 1..];
  }

  /** A word without blanks at the head of the rest lies inside one argument. */
  lemma {:induction false} WordInside(args: seq<seq<byte>>, k: nat, i: nat, w: seq<byte>)
    requires k < |args| && i <= |args[k]| && BLANK !in w
    requires |w| <= |Rest(args, k, i)| && Rest(args, k, i)[..|w|] == w
    ensures i + |w| <= |args[k]| && args[k][i..i + |w|] == w
  {
    var t := Rest(args, k, i);
    forall j | 0 <= j < |w| ensures t[j] == w[j] != BLANK {
      assert t[j] == t[..|w|][j];
    }
    assert i + |w| <= |args[k]|;
    assert args[k][i..i + |w|] == w;
  }

  // ---------------------------------------------------------------- the printed dumps

  function CellOf(data: seq<byte>): (v: nat)
    requires |data| >= 4
    ensures v < WORD
  {
    var b0: int, b1: int, b2: int, b3: int := data[0], data[1], data[2], data[3];
    b0 * 0x100_0000 + b1 * 0x1_0000 + b2 * 256 + b3
  }

  lemma {:induction false} CellBytes(data: seq<byte>)
    requires |data| >= 4
    ensures BytesOfWord(CellOf(data)) == data[..4]
  {
    BytesOfCell(data[0], data[1], data[2], data[3]);
  }

  lemma {:induction false} BytesOfCell(b0: int, b1: int, b2: int, b3: int)
    requires 0 <= b0 < 256 && 0 <= b1 < 256 && 0 <= b2 < 256 && 0 <= b3 < 256
    ensures var v := b0 * 0x100_0000 + b1 * 0x1_0000 + b2 * 256 + b3;
            && v / 0x100_0000 == b0 && v / 0x1_0000 % 256 == b1 && v / 256 % 256 == b2 && v % 256 == b3
  {
    var v := b0 * 0x100_0000 + b1 * 0x1_0000 + b2 * 256 + b3;
    assert v / 256 == b0 * 0x1_0000 + b1 * 256 + b2;
    assert v / 0x1_0000 == b0 * 256 + b1;
  }

  /** The cells of data with blanks between them and the closing bracket. */
  function CellText(data: seq<byte>): (t: seq<byte>)
    requires |data| % 4 == 0
    ensures |t| > 0
  {
    if data == [] then [GT]
    else if |data| == 4 then CellWord(CellOf(data)) + [GT]
    else CellWord(CellOf(data)) + [BLANK] + CellText(data[4..])
  }

  function ByteText(data: seq<byte>): (t: seq<byte>)
    ensures |t| > 0
  {
    if data == [] then [CLOSE]
    else if |data| == 1 then Hex(data[0], 2) + [CLOSE]
    else Hex(data[0], 2) + [BLANK] + ByteText(data[1..])
  }

  lemma {:induction false} DigitsAreNotBlank(s: seq<byte>)
    requires forall j :: 0 <= j < |s| ==> DigitValue(s[j]) < 16
    ensures BLANK !in s
  {
  }

  /** One cell of the printed text, read at character i of argument k. */
  lemma {:induction false} CellStep(args: seq<seq<byte>>, k: nat, i: nat, data: seq<byte>)
    requires |data| % 4 == 0 && data != []
    requires k < |args| && i <= |args[k]| && Rest(args, k, i) == CellText(data)
    ensures i + 10 <= |args[k]| && args[k][i] == ZERO
    ensures Strtoul(args[k], i, 0) == Number(CellOf(data), i + 10)
    ensures |data| == 4 ==> Rest(args, k, i + 10) == [GT]
    ensures |data| > 4 ==> Rest(args, k, i + 10) == [BLANK] + CellText(data[4..])
    ensures |data| > 4 && i + 10 == |args[k]| ==> k + 1 < |args|
  {
    var v := CellOf(data);
    var w := CellWord(v);
    assert BLANK !in w by { DigitsAreNotBlank(Hex(v, 8)); }
    var t := Rest(args, k, i);
    assert t[..10] == w;
    WordInside(args, k, i, w);
    assert args[k][i] == args[k][i..i + 10][0] == ZERO;
    CellSeparator(args, k, i, data);
    CellReads(args[k], i, v);
  }

  lemma {:induction false} ParseOneCell(args: seq<seq<byte>>, k: nat, i: nat, data: seq<byte>, acc: seq<byte>)
    requires |data| >= 4 && k < |args| && i + 10 <= |args[k]| && args[k][i] == ZERO
    requires Strtoul(args[k], i, 0) == Number(CellOf(data), i + 10) && |acc| + 4 <= SCRATCHPAD
    ensures ParseCells(args, k, i, acc) == ParseCells(args, k, SkipBlanks(args[k], i + 10), acc + data[..4])
  {
    hide CellOf, Strtoul, BytesOfWord;
    CellBytes(data);
  }

  /** However the text was cut at its blanks, the cells come back. */
  lemma {:induction false} CellsComeBack(args: seq<seq<byte>>, k: nat, i: nat, data: seq<byte>, acc: seq<byte>)
    requires |data| % 4 == 0 && k < |args| && i <= |args[k]| && Rest(args, k, i) == CellText(data)
    requires |acc| + |data| <= SCRATCHPAD
    ensures ParseCells(args, k, i, acc) == Value(acc + data)
    decreases |data|
  {
    hide *;
    if data == [] {
      CellTextEnds(args, k, i, acc);
      assert acc + data == acc;
    } else {
      CellStep(args, k, i, data);
      ParseOneCell(args, k, i, data, acc);
      var acc' := acc + data[..4];
      assert acc' + data[4..] == acc + data;
      if |data| == 4 {
        LastCell(args, k, i + 10, acc');
        assert acc' == acc + data;
      } else {
        AfterCell(args, k, i + 10, data[4..], acc');
        if i + 10 == |args[k]| {
          CellsComeBack(args, k + 1, 0, data[4..], acc');
        } else {
          CellsComeBack(args, k, i + 11, data[4..], acc');
        }
      }
    }
  }

  lemma {:induction false} CellTextEnds(args: seq<seq<byte>>, k: nat, i: nat, acc: seq<byte>)
    requires k < |args| && i <= |args[k]| && Rest(args, k, i) == CellText([])
    ensures ParseCells(args, k, i, acc) == Value(acc)
  {
    LastCell(args, k, i, acc);
  }

  lemma {:induction false} LastCell(args: seq<seq<byte>>, k: nat, i: nat, acc: seq<byte>)
    requires k < |args| && i <= |args[k]| && Rest(args, k, i) == [GT]
    ensures i < |args[k]| && args[k][i] == GT
    ensures ParseCells(args, k, SkipBlanks(args[k], i), acc) == Value(acc)
  {
    WordInside(args, k, i, [GT]);
    assert args[k][i] == args[k][i..i + 1][0];
  }

  /** The blank between two cells is either skipped or is where the arguments were cut. */
  lemma {:induction false} AfterCell(args: seq<seq<byte>>, k: nat, i: nat, data: seq<byte>, acc: seq<byte>)
    requires |data| % 4 == 0 && data != [] && k < |args| && i <= |args[k]|
    requires Rest(args, k, i) == [BLANK] + CellText(data)
    requires i == |args[k]| ==> k + 1 < |args|
    ensures i == |args[k]| ==>
              && Rest(args, k + 1, 0) == CellText(data)
              && ParseCells(args, k, SkipBlanks(args[k], i), acc) == ParseCells(args, k + 1, 0, acc)
    ensures i < |args[k]| ==>
              && Rest(args, k, i + 1) == CellText(data)
              && ParseCells(args, k, SkipBlanks(args[k], i), acc) == ParseCells(args, k, i + 1, acc)
  {
    var t := Rest(args, k, i);
    assert t[1..] == CellText(data);
    if i == |args[k]| {
      RestOfNext(args, k);
      assert ([BLANK] + Rest(args, k + 1, 0))[1..] == Rest(args, k + 1, 0);
    } else {
      assert t[0] == args[k][i];
      RestAdvances(args, k, i, 1);
      StartsWithZero(args, k, i + 1, data);
    }
  }

  /** What follows the first cell. */
  lemma {:induction false} CellSeparator(args: seq<seq<byte>>, k: nat, i: nat, data: seq<byte>)
    requires |data| % 4 == 0 && data != []
    requires k < |args| && i + 10 <= |args[k]| && Rest(args, k, i) == CellText(data)
    ensures |data| == 4 ==> Rest(args, k, i + 10) == [GT]
    ensures |data| > 4 ==> Rest(args, k, i + 10) == [BLANK] + CellText(data[4..])
    ensures NoDigitAt(args[k], i + 10)
    ensures |data| > 4 && i + 10 == |args[k]| ==> k + 1 < |args|
  {
    hide CellOf, CellWord;
    RestAdvances(args, k, i, 10);
    var t := Rest(args, k, i + 10);
    if |data| == 4 {
      assert t == [GT];
    } else {
      assert t == [BLANK] + CellText(data[4..]);
    }
    if i + 10 < |args[k]| {
      assert t[0] == args[k][i + 10];
    }
  }

  lemma {:induction false} StartsWithZero(args: seq<seq<byte>>, k: nat, i: nat, data: seq<byte>)
    requires |data| % 4 == 0 && data != []
    requires k < |args| && i <= |args[k]| && Rest(args, k, i) == CellText(data)
    ensures i < |args[k]| && args[k][i] == ZERO
  {
    var t := Rest(args, k, i);
    assert t[0] == CellWord(CellOf(data))[0] == ZERO;
  }

  /** One byte of the printed text, read at character i of argument k. */
  lemma {:induction false} ByteStep(args: seq<seq<byte>>, k: nat, i: nat, data: seq<byte>)
    requires data != [] && k < |args| && i <= |args[k]| && Rest(args, k, i) == ByteText(data)
    ensures i + 2 <= |args[k]| && DigitValue(args[k][i]) < 16
    ensures Strtoul(args[k], i, 16) == Number(data[0], i + 2)
    ensures |data| == 1 ==> Rest(args, k, i + 2) == [CLOSE]
    ensures |data| > 1 ==> Rest(args, k, i + 2) == [BLANK] + ByteText(data[1..])
    ensures |data| > 1 && i + 2 == |args[k]| ==> k + 1 < |args|
  {
    hide Hex, Strtoul, Digits;
    var w := Hex(data[0], 2);
    DigitsAreNotBlank(w);
    var t := Rest(args, k, i);
    assert t[..2] == w;
    WordInside(args, k, i, w);
    assert args[k][i] == args[k][i..i + 2][0] == w[0];
    ByteSeparator(args, k, i, data);
    ByteReads(args[k], i, data[0]);
  }

  /** What follows the first byte. */
  lemma {:induction false} ByteSeparator(args: seq<seq<byte>>, k: nat, i: nat, data: seq<byte>)
    requires data != []
    requires k < |args| && i + 2 <= |args[k]| && Rest(args, k, i) == ByteText(data)
    ensures |data| == 1 ==> Rest(args, k, i + 2) == [CLOSE]
    ensures |data| > 1 ==> Rest(args, k, i + 2) == [BLANK] + ByteText(data[1..])
    ensures NoDigitAt(args[k], i + 2)
    ensures |data| > 1 && i + 2 == |args[k]| ==> k + 1 < |args|
  {
    hide Hex;
    RestAdvances(args, k, i, 2);
    var t := Rest(args, k, i + 2);
    if |data| == 1 {
      assert t == [CLOSE];
    } else {
      assert t == [BLANK] + ByteText(data[1..]);
    }
    if i + 2 < |args[k]| {
      assert t[0] == args[k][i + 2];
    }
  }

  lemma {:induction false} BytesComeBack(args: seq<seq<byte>>, k: nat, i: nat, data: seq<byte>, acc: seq<byte>)
    requires k < |args| && i <= |args[k]| && Rest(args, k, i) == ByteText(data)
    requires |acc| + |data| <= SCRATCHPAD
    ensures ParseStream(args, k, i, acc) == Value(acc + data)
    decreases |data|
  {
    hide *;
    if data == [] {
      ByteTextEnds(args, k, i, acc);
      assert acc + data == acc;
    } else {
      ByteStep(args, k, i, data);
      ParseOneByte(args, k, i, data, acc);
      var acc' := acc + [data[0]];
      assert acc' + data[1..] == acc + data;
      if |data| == 1 {
        LastByte(args, k, i + 2, acc');
        assert acc' == acc + data;
      } else {
        AfterByte(args, k, i + 2, data[1..], acc');
        if i + 2 == |args[k]| {
          BytesComeBack(args, k + 1, 0, data[1..], acc');
        } else {
          BytesComeBack(args, k, i + 3, data[1..], acc');
        }
      }
    }
  }

  lemma {:induction false} ParseOneByte(args: seq<seq<byte>>, k: nat, i: nat, data: seq<byte>, acc: seq<byte>)
    requires data != [] && k < |args| && i + 2 <= |args[k]| && DigitValue(args[k][i]) < 16
    requires Strtoul(args[k], i, 16) == Number(data[0], i + 2) && |acc| < SCRATCHPAD
    ensures ParseStream(args, k, i, acc) == ParseStream(args, k, i + 2, acc + [data[0]])
  {
    hide Strtoul;
  }

  lemma {:induction false} LastByte(args: seq<seq<byte>>, k: nat, i: nat, acc: seq<byte>)
    requires k < |args| && i <= |args[k]| && Rest(args, k, i) == [CLOSE]
    ensures ParseStream(args, k, i, acc) == Value(acc)
  {
    WordInside(args, k, i, [CLOSE]);
    assert args[k][i] == args[k][i..i + 1][0];
  }

  lemma {:induction false} ByteTextEnds(args: seq<seq<byte>>, k: nat, i: nat, acc: seq<byte>)
    requires k < |args| && i <= |args[k]| && Rest(args, k, i) == ByteText([])
    ensures ParseStream(args, k, i, acc) == Value(acc)
  {
    LastByte(args, k, i, acc);
  }

  lemma {:induction false} AfterByte(args: seq<seq<byte>>, k: nat, i: nat, data: seq<byte>, acc: seq<byte>)
    requires data != [] && k < |args| && i <= |args[k]|
    requires Rest(args, k, i) == [BLANK] + ByteText(data)
    requires i == |args[k]| ==> k + 1 < |args|
    ensures i == |args[k]| ==>
              && Rest(args, k + 1, 0) == ByteText(data)
              && ParseStream(args, k, i, acc) == ParseStream(args, k + 1, 0, acc)
    ensures i < |args[k]| ==>
              && Rest(args, k, i + 1) == ByteText(data)
              && ParseStream(args, k, i, acc) == ParseStream(args, k, i + 1, acc)
  {
    hide ParseStream, ByteText;
    var t := Rest(args, k, i);
    assert t[1..] == ByteText(data);
    if i == |args[k]| {
      RestOfNext(args, k);
      assert ([BLANK] + Rest(args, k + 1, 0))[1..] == Rest(args, k + 1, 0);
      StreamTurns(args, k, acc);
    } else {
      assert t[0] == args[k][i];
      RestAdvances(args, k, i, 1);
      StreamSkips(args, k, i, acc);
    }
  }

  lemma {:induction false} StreamTurns(args: seq<seq<byte>>, k: nat, acc: seq<byte>)
    requires k < |args|
    ensures ParseStream(args, k, |args[k]|, acc) == ParseStream(args, k + 1, 0, acc)
  {
  }

  lemma {:induction false} StreamSkips(args: seq<seq<byte>>, k: nat, i: nat, acc: seq<byte>)
    requires k < |args| && i < |args[k]| && args[k][i] == BLANK
    ensures ParseStream(args, k, i, acc) == ParseStream(args, k, i + 1, acc)
  {
    hide Strtoul, DigitValue;
    SkipOneBlank(args[k], i);
  }

  lemma {:induction false} SkipOneBlank(s: seq<byte>, i: nat)
    requires i < |s| && s[i] == BLANK
    ensures SkipBlanks(s, i) == SkipBlanks(s, i + 1)
  {
  }

  // ---------------------------------------------------------------- the printer

  /** isprint or isspace of lib/ctype.c. */
  predicate IsText(c: byte) { 9 <= c <= 13 || 32 <= c <= 126 || 160 <= c }

  /** The first NUL at or after i, or the end. */
  function Strlen(s: seq<byte>): (n: nat)
    ensures n <= |s| && (n < |s| ==> s[n] == NUL)
    ensures forall j :: 0 <= j < n ==> s[j] != NUL
  {
    if s == [] || s[0] == NUL then 0
    else
      Strlen(s[1..]) + 1
  }

  /** The strings that a run of NUL-terminated strings holds. */
  function Strings(data: seq<byte>): (ss: seq<seq<byte>>)
    ensures data != [] <==> ss != []
    ensures forall k :: 0 <= k < |ss| ==> CString(ss[k])
  {
    if data == [] then []
    else
      var n := Strlen(data);
      [data[..n]] + (if n < |data| then Strings(data[n + 1..]) else [])
  }

  lemma {:induction false} FirstStringJoins(data: seq<byte>)
    requires data != [] && Strlen(data) < |data|
    ensures var n := Strlen(data);
            JoinStrings(Strings(data)) == data[..n] + [NUL] + JoinStrings(Strings(data[n + 1..]))
  {
    assert Strings(data)[1..] == Strings(data[Strlen(data) + 1..]);
  }

  lemma {:induction false} CutAtNul(data: seq<byte>, n: nat)
    requires n < |data| && data[n] == NUL
    ensures data == data[..n] + [NUL] + data[n + 1..]
    ensures n + 1 < |data| ==> data[n + 1..][|data| - n - 2] == data[|data| - 1]
  {
  }

  lemma {:induction false} StringsJoin(data: seq<byte>)
    requires data != [] ==> data[|data| - 1] == NUL
    ensures JoinStrings(Strings(data)) == data
  {
    hide *;
    if data == [] {
      NoStringsJoin();
    } else {
      var n := Strlen(data);
      CutAtNul(data, n);
      FirstStringJoins(data);
      StringsJoin(data[n + 1..]);
    }
  }

  lemma {:induction false} NoStringsJoin()
    ensures JoinStrings(Strings([])) == []
  {
  }

  /**
   What is_printable_string decides; beyond is the byte that follows the value in the blob, which
   the scan reaches when the value ends in a newline.
   */
  ghost predicate Printable(data: seq<byte>, beyond: byte) {
    && data != []
    && (data[|data| - 1] == NUL || (data[|data| - 1] == NEWLINE && beyond == NUL))
    && (forall i :: 0 <= i < |data| ==> data[i] == NUL || IsText(data[i]))
    && (forall i :: 0 <= i < |data| - 1 ==> !(data[i] == NUL && data[i + 1] == NUL))
  }

  method IsPrintableString(data: seq<byte>, beyond: byte) returns (r: bool)
    ensures r == Printable(data, beyond)
  {
    if |data| == 0 { return false; }
    if data[|data| - 1] != NUL && data[|data| - 1] != NEWLINE { return false; }
    var i := 0;
    while i < |data| && (data[i] == NUL || IsText(data[i]))
      invariant i <= |data|
      invariant data[|data| - 1] == NUL || data[|data| - 1] == NEWLINE
      invariant i == |data| ==> data[i - 1] != NUL
      invariant forall j :: 0 <= j < i ==> data[j] == NUL || IsText(data[j])
      invariant forall j :: 0 <= j < i && j < |data| - 1 ==> !(data[j] == NUL && data[j + 1] == NUL)
    {
      if data[i] == NUL {
        if i == |data| - 1 { return true; }
        if data[i + 1] == NUL { return false; }
      }
      i := i + 1;
    }
    if i < |data| || beyond != NUL { return false; }
    return true;
  }

  datatype Printed =
    | Nothing
    | StringList(strings: seq<seq<byte>>)
    | Dump(text: seq<byte>)
    | Summary(length: nat)       // too long to dump

  /** print_data */
  ghost function Print(data: seq<byte>, beyond: byte): Printed {
    if data == [] then Nothing
    else if Printable(data, beyond) then StringList(Strings(data))
    else if |data| > MAX_DUMP then Summary(|data|)
    else if |data| % 4 == 0 then Dump([LT] + CellText(data))
    else Dump([OPEN] + ByteText(data))
  }

  const QUOTE: byte := 0x22
  const COMMA: byte := 0x2C
  const STAR: byte := 0x2A
  const SEPARATOR: seq<byte> := [QUOTE, COMMA, BLANK, QUOTE]

  function Quoted(ss: seq<seq<byte>>): seq<byte> {
    if ss == [] then []
    else if |ss| == 1 then ss[0]
    else ss[0] + SEPARATOR + Quoted(ss[1..])
  }

  /** The console text; a summary shows the address of the value. */
  function Render(p: Printed, address: nat): seq<byte> {
    match p
    case Nothing => []
    case StringList(ss) => [QUOTE] + Quoted(ss) + [QUOTE]
    case Dump(text) => text
    case Summary(length) =>
      [STAR, BLANK, ZERO, EX] + Hex(address, 8) + [BLANK, OPEN, ZERO, EX] + Hex(length, 8) + [CLOSE]
  }

  // ---------------------------------------------------------------- what comes back

  /** Every way of typing the printed form back in sets the same value. */
  ghost predicate ComesBack(p: Printed, data: seq<byte>) {
    match p
    case Nothing => data == []
    case StringList(ss) => ss != [] && Parse(ss) == Value(data)
    case Dump(text) => forall args: seq<seq<byte>> | args != [] && Join(args) == text :: Parse(args) == Value(data)
    case Summary(length) => false
  }

  predicate StartsLikeDump(data: seq<byte>) { data != [] && (data[0] == LT || data[0] == OPEN) }

  /** A value survives being printed and typed back exactly when this holds. */
  ghost predicate Survives(data: seq<byte>, beyond: byte) {
    data != [] ==>
      if Printable(data, beyond) then data[|data| - 1] == NUL && !StartsLikeDump(data) && |data| <= SCRATCHPAD
      else |data| <= MAX_DUMP
  }

  lemma {:induction false} DumpComesBack(data: seq<byte>, args: seq<seq<byte>>)
    requires args != [] && |data| <= SCRATCHPAD
    ensures |data| % 4 == 0 && Join(args) == [LT] + CellText(data) ==> Parse(args) == Value(data)
    ensures Join(args) == [OPEN] + ByteText(data) ==> Parse(args) == Value(data)
  {
    hide CellText, ByteText;
    assert args[0..] == args;
    var all := Rest(args, 0, 0);
    assert all == Join(args);
    if |data| % 4 == 0 && Join(args) == [LT] + CellText(data) {
      assert all[..1] == [LT];
      WordInside(args, 0, 0, [LT]);
      assert args[0][0] == args[0][0..1][0];
      RestAdvances(args, 0, 0, 1);
      assert ([LT] + CellText(data))[1..] == CellText(data);
      CellsComeBack(args, 0, 1, data, []);
      assert [] + data == data;
    }
    if Join(args) == [OPEN] + ByteText(data) {
      assert all[..1] == [OPEN];
      WordInside(args, 0, 0, [OPEN]);
      assert args[0][0] == args[0][0..1][0];
      RestAdvances(args, 0, 0, 1);
      assert ([OPEN] + ByteText(data))[1..] == ByteText(data);
      BytesComeBack(args, 0, 1, data, []);
      assert [] + data == data;
    }
  }

  /** The number of characters of the arguments from k on. */
  ghost function Total(args: seq<seq<byte>>, k: nat): nat
    requires k <= |args|
    decreases |args| - k
  {
    if k == |args| then 0 else |args[k]| + Total(args, k + 1)
  }

  ghost function Remaining(args: seq<seq<byte>>, k: nat, i: nat): int
    requires k <= |args|
  {
    Total(args, k) - i
  }

  lemma {:induction false} TotalShift(args: seq<seq<byte>>, k: nat)
    requires 0 < k <= |args|
    ensures Total(args, k) == Total(args[1..], k - 1)
    decreases |args| - k
  {
    if k < |args| { TotalShift(args, k + 1); }
  }

  lemma {:induction false} StringsTotal(data: seq<byte>)
    ensures Total(Strings(data), 0) <= |data|
  {
    if data != [] {
      var n := Strlen(data);
      var ss := Strings(data);
      TotalShift(ss, 1);
      if n < |data| {
        StringsTotal(data[n + 1..]);
        assert ss[1..] == Strings(data[n + 1..]);
      } else {
        assert ss[1..] == [];
      }
    }
  }

  lemma {:induction false} StreamIsShort(args: seq<seq<byte>>, k: nat, i: nat, acc: seq<byte>)
    requires k <= |args| && (if k < |args| then i <= |args[k]| else i == 0)
    requires ParseStream(args, k, i, acc).Value?
    ensures |ParseStream(args, k, i, acc).bytes| - |acc| <= Remaining(args, k, i)
    decreases |args| - k, if k < |args| then |args[k]| - i else 0
  {
    var j := SkipBlanks(args[k], i);
    if CharAt(args[k], j) == CLOSE {
      TotalSplits(args, k);
    } else if j == |args[k]| {
      StreamIsShort(args, k + 1, 0, acc);
    } else {
      StrtoulAdvances(args[k], j);
      var n := Strtoul(args[k], j, 16);
      StreamIsShort(args, k, n.end, acc + [n.value % 256]);
    }
  }

  lemma {:induction false} TotalSplits(args: seq<seq<byte>>, k: nat)
    requires k < |args|
    ensures Total(args, k) >= |args[k]|
  {
  }

  lemma {:induction false} DigitsAreSmall(s: seq<byte>, i: nat, base: nat, acc: nat, m: nat)
    requires i <= |s| && base <= 16 && acc < Pow16(m)
    ensures var r := Digits(s, i, base, acc); r.value < Pow16(m + (r.end - i))
    decreases |s| - i
  {
    if i < |s| && DigitValue(s[i]) < base {
      var d := DigitValue(s[i]);
      OneDigitMore(acc, base, d, m);
      DigitsAreSmall(s, i + 1, base, (acc * base + d) % WORD, m + 1);
    }
  }

  lemma {:induction false} OneDigitMore(acc: nat, base: nat, d: nat, m: nat)
    requires d < base <= 16 && acc < Pow16(m)
    ensures 0 <= acc * base + d < Pow16(m + 1)
  {
    assert acc * base <= acc * 16;
  }

  lemma {:induction false} PowGrows(a: nat, b: nat)
    requires a <= b
    ensures 0 < Pow16(a) <= Pow16(b)
    decreases b
  {
    if a < b { PowGrows(a, b - 1); } else if a > 0 { PowGrows(a - 1, a - 1); }
  }

  /** A number of at most four characters leaves the two high bytes of its cell zero. */
  lemma {:induction false} ShortNumber(s: seq<byte>, i: nat)
    requires i <= |s| && Strtoul(s, i, 0).end <= i + 4
    ensures Strtoul(s, i, 0).value < 0x1_0000
  {
    var n := Strtoul(s, i, 0);
    var from, base := i, 10;
    if CharAt(s, i) == ZERO {
      if CharAt(s, i + 1) == EX && DigitValue(CharAt(s, i + 2)) < 16 {
        from, base := i + 2, 16;
      } else {
        from, base := i + 1, 8;
      }
    }
    assert n == Digits(s, from, base, 0);
    DigitsAreSmall(s, from, base, 0, 0);
    PowGrows(n.end - from, 4);
    assert Pow16(4) == 0x1_0000;
  }

  /** From position p on, no two neighbouring bytes are both NUL. */
  ghost predicate NoDoubleNul(s: seq<byte>, p: nat) {
    forall j :: p <= j < |s| - 1 ==> !(s[j] == NUL && s[j + 1] == NUL)
  }

  lemma {:induction false} CellsKeepPrefix(args: seq<seq<byte>>, k: nat, i: nat, acc: seq<byte>)
    requires k <= |args| && (if k < |args| then i <= |args[k]| else i == 0)
    requires ParseCells(args, k, i, acc).Value?
    ensures acc <= ParseCells(args, k, i, acc).bytes
    decreases |args| - k, if k < |args| then |args[k]| - i else 0
  {
    if CharAt(args[k], i) != GT {
      if i == |args[k]| {
        CellsKeepPrefix(args, k + 1, 0, acc);
      } else {
        var n := Strtoul(args[k], i, 0);
        CellsKeepPrefix(args, k, SkipBlanks(args[k], n.end), acc + BytesOfWord(n.value % WORD));
      }
    }
  }

  /** Cells without a double NUL take more text than they have bytes. */
  lemma {:induction false} CellsAreShort(args: seq<seq<byte>>, k: nat, i: nat, acc: seq<byte>)
    requires k <= |args| && (if k < |args| then i <= |args[k]| else i == 0)
    requires ParseCells(args, k, i, acc).Value?
    requires NoDoubleNul(ParseCells(args, k, i, acc).bytes, |acc|)
    ensures 5 * (|ParseCells(args, k, i, acc).bytes| - |acc|) <= 4 * Remaining(args, k, i)
    decreases |args| - k, if k < |args| then |args[k]| - i else 0
  {
    if CharAt(args[k], i) == GT {
      TotalSplits(args, k);
    } else if i == |args[k]| {
      CellsAreShort(args, k + 1, 0, acc);
    } else {
      var n := Strtoul(args[k], i, 0);
      var acc' := acc + BytesOfWord(n.value % WORD);
      var b := ParseCells(args, k, i, acc).bytes;
      var i' := SkipBlanks(args[k], n.end);
      assert ParseCells(args, k, i, acc) == ParseCells(args, k, i', acc');
      CellsKeepPrefix(args, k, i', acc');
      CellsAreShort(args, k, i', acc');
      LongNumber(args[k], i, acc, b);
    }
  }

  lemma {:induction false} LongNumber(s: seq<byte>, i: nat, acc: seq<byte>, b: seq<byte>)
    requires i <= |s|
    requires acc + BytesOfWord(Strtoul(s, i, 0).value % WORD) <= b && NoDoubleNul(b, |acc|)
    ensures Strtoul(s, i, 0).end >= i + 5
  {
    hide Strtoul, BytesOfWord;
    var be := BytesOfWord(Strtoul(s, i, 0).value % WORD);
    HighBytes(s, i);
    assert b[|acc|] == (acc + be)[|acc|] == be[0];
    assert b[|acc| + 1] == (acc + be)[|acc| + 1] == be[1];
  }

  lemma {:induction false} HighBytes(s: seq<byte>, i: nat)
    requires i <= |s|
    ensures |BytesOfWord(Strtoul(s, i, 0).value % WORD)| == 4
    ensures var be := BytesOfWord(Strtoul(s, i, 0).value % WORD);
            Strtoul(s, i, 0).end >= i + 5 || (be[0] == NUL && be[1] == NUL)
  {
    hide Strtoul;
    if Strtoul(s, i, 0).end <= i + 4 { ShortNumber(s, i); }
  }

  /** A string list whose first string looks like a dump is never read back as itself. */
  lemma {:induction false} DumpLikeStringsAreLost(data: seq<byte>)
    requires StartsLikeDump(data) && NoDoubleNul(data, 0)
    ensures Parse(Strings(data)) != Value(data)
  {
    var ss := Strings(data);
    assert ss[0] == data[..Strlen(data)];
    assert ss[0][0] == data[0];
    StringsTotal(data);
    if Parse(ss) == Value(data) {
      if data[0] == LT {
        CellsAreShort(ss, 0, 1, []);
      } else {
        StreamIsShort(ss, 0, 1, []);
      }
    }
  }

  /** A final newline gains a NUL on the way. */
  lemma {:induction false} UnterminatedStringsGain(data: seq<byte>)
    requires data != [] && data[|data| - 1] != NUL
    ensures JoinStrings(Strings(data)) == data + [NUL]
  {
    hide *;
    var n := Strlen(data);
    if n < |data| {
      CutAtNul(data, n);
      FirstStringJoins(data);
      UnterminatedStringsGain(data[n + 1..]);
      AppendAssociates(data[..n] + [NUL], data[n + 1..], [NUL]);
    } else {
      OneStringJoins(data);
    }
  }

  lemma {:induction false} AppendAssociates(a: seq<byte>, b: seq<byte>, c: seq<byte>)
    ensures a + (b + c) == a + b + c
  {
  }

  lemma {:induction false} OneStringJoins(data: seq<byte>)
    requires data != [] && Strlen(data) == |data|
    ensures JoinStrings(Strings(data)) == data + [NUL]
  {
    var ss := Strings(data);
    assert data[..|data|] == data;
    assert ss == [data];
    assert ss[1..] == [];
    assert JoinStrings([]) == [];
  }

  /** The round trip, and exactly the values it holds for. */
  lemma {:induction false} PrintThenParse(data: seq<byte>, beyond: byte)
    ensures ComesBack(Print(data, beyond), data) <==> Survives(data, beyond)
  {
    if data != [] && Printable(data, beyond) {
      var ss := Strings(data);
      assert CharAt(ss[0], 0) == data[0];
      if StartsLikeDump(data) {
        DumpLikeStringsAreLost(data);
      } else if data[|data| - 1] == NUL {
        StringsJoin(data);
      } else {
        UnterminatedStringsGain(data);
        assert |data + [NUL]| != |data|;
      }
    } else if data != [] && |data| <= MAX_DUMP {
      forall args: seq<seq<byte>> | args != [] ensures
        && (|data| % 4 == 0 && Join(args) == [LT] + CellText(data) ==> Parse(args) == Value(data))
        && (Join(args) == [OPEN] + ByteText(data) ==> Parse(args) == Value(data))
      {
        DumpComesBack(data, args);
      }
    }
  }

  /** The shortest failure of its kind: a string of 1024 characters and its NUL do not fit the data buffer. */
  lemma {:induction false} LongStringOverflows(beyond: byte)
    ensures var data: seq<byte> := seq(1024, _ => 97) + [NUL];
            Printable(data, beyond) && Parse(Strings(data)) == Overflow
  {
    var data: seq<byte> := seq(1024, _ => 97) + [NUL];
    StringsJoin(data);
    assert CharAt(Strings(data)[0], 0) == data[0];
  }

  // ---------------------------------------------------------------- the code's loops

  /** Stores bytes behind the first len of the data buffer, as long as there is room. */
  method Append(data: array<byte>, len: nat, bytes: seq<byte>) returns (fits: bool)
    requires len <= data.Length
    modifies data
    ensures fits <==> len + |bytes| <= data.Length
    ensures fits ==> data[..len + |bytes|] == old(data[..len]) + bytes
  {
    var k := 0;
    while k < |bytes|
      invariant k <= |bytes| && len + k <= data.Length && data[..len + k] == old(data[..len]) + bytes[..k]
    {
      if len + k == data.Length { return false; }
      data[len + k] := bytes[k];
      k := k + 1;
    }
    assert bytes[..k] == bytes;
    fits := true;
  }

  method SimpleStrtoul(s: seq<byte>, start: nat, base0: nat) returns (n: Number)
    requires start <= |s| && base0 <= 16
    ensures n == Strtoul(s, start, base0)
  {
    var i, base := start, base0;
    if CharAt(s, i) == ZERO {
      i := i + 1;
      if CharAt(s, i) == EX && DigitValue(CharAt(s, i + 1)) < 16 {
        base := 16;
        i := i + 1;
      }
      if base == 0 { base := 8; }
    }
    if base == 0 { base := 10; }
    var result: nat := 0;
    while i < |s| && DigitValue(s[i]) < base
      invariant i <= |s| && base <= 16
      invariant Digits(s, i, base, result) == Strtoul(s, start, base0)
    {
      result := (result * base + DigitValue(s[i])) % WORD;
      i := i + 1;
    }
    n := Number(result, i);
  }

  method ParseCellsLoop(args: seq<seq<byte>>, data: array<byte>) returns (r: Parsed)
    requires args != [] && args[0] != [] && data.Length == SCRATCHPAD
    modifies data
    ensures r == ParseCells(args, 0, 1, [])
    ensures r.Value? ==> r.bytes <= data[..]
  {
    hide Strtoul, BytesOfWord;
    var k: nat, i: nat, len: nat := 0, 1, 0;
    while k < |args| && CharAt(args[k], i) != GT
      invariant k <= |args| && (if k < |args| then i <= |args[k]| else i == 0) && len <= data.Length
      invariant ParseCells(args, k, i, data[..len]) == ParseCells(args, 0, 1, [])
      decreases |args| - k, if k < |args| then |args[k]| - i else 0
    {
      if i == |args[k]| {
        k, i := k + 1, 0;
      } else {
        var n := SimpleStrtoul(args[k], i, 0);
        var fits := Append(data, len, BytesOfWord(n.value % WORD));
        if !fits { return Overflow; }
        len := len + 4;
        if n.end <= i { return Malformed; }
        i := SkipBlanksLoop(args[k], n.end);
      }
    }
    r := if k == |args| then OffTheEnd else Value(data[..len]);
  }

  method SkipBlanksLoop(s: seq<byte>, start: nat) returns (i: nat)
    requires start <= |s|
    ensures i == SkipBlanks(s, start)
  {
    i := start;
    while i < |s| && s[i] == BLANK
      invariant start <= i <= |s| && SkipBlanks(s, i) == SkipBlanks(s, start)
    {
      i := i + 1;
    }
  }

  method ParseStreamLoop(args: seq<seq<byte>>, data: array<byte>) returns (r: Parsed)
    requires args != [] && args[0] != [] && data.Length == SCRATCHPAD
    modifies data
    ensures r == ParseStream(args, 0, 1, [])
    ensures r.Value? ==> r.bytes <= data[..]
  {
    hide Strtoul;
    var k: nat, i: nat, len: nat := 0, 1, 0;
    while k < |args| && CharAt(args[k], i) != CLOSE
      invariant k <= |args| && (if k < |args| then i <= |args[k]| else i == 0) && len <= data.Length
      invariant ParseStream(args, k, i, data[..len]) == ParseStream(args, 0, 1, [])
      decreases |args| - k, if k < |args| then |args[k]| - i else 0
    {
      var j := SkipBlanksLoop(args[k], i);
      if j == |args[k]| {
        k, i := k + 1, 0;
      } else if DigitValue(args[k][j]) == 16 {
        return if args[k][j] == CLOSE then Value(data[..len]) else Malformed;
      } else {
        StrtoulAdvances(args[k], j);
        var n := SimpleStrtoul(args[k], j, 16);
        var fits := Append(data, len, [n.value % 256]);
        if !fits { return Overflow; }
        len := len + 1;
        i := n.end;
      }
    }
    r := if k == |args| then OffTheEnd else Value(data[..len]);
  }

  /** fdt_parse_prop into the buffer of "fdt set"; *len is the length of the value. */
  method FdtParseProp(args: seq<seq<byte>>, data: array<byte>) returns (r: Parsed)
    requires args != [] && data.Length == SCRATCHPAD
    modifies data
    ensures r == Parse(args)
    ensures r.Value? ==> r.bytes <= data[..]
  {
    if CharAt(args[0], 0) == LT {
      r := ParseCellsLoop(args, data);
    } else if CharAt(args[0], 0) == OPEN {
      r := ParseStreamLoop(args, data);
    } else {
      r := CopyStrings(args, data);
    }
  }

  /** The strcpy loop. */
  method CopyStrings(args: seq<seq<byte>>, data: array<byte>) returns (r: Parsed)
    requires data.Length == SCRATCHPAD
    modifies data
    ensures r == if |JoinStrings(args)| > SCRATCHPAD then Overflow else Value(JoinStrings(args))
    ensures r.Value? ==> r.bytes <= data[..]
  {
    hide JoinStrings;
    var k, len := 0, 0;
    assert args[0..] == args && data[..0] + JoinStrings(args) == JoinStrings(args);
    while k < |args|
      invariant k <= |args| && 0 <= len <= data.Length && JoinStrings(args) == data[..len] + JoinStrings(args[k..])
    {
      JoinNext(args, k, data[..len]);
      var fits := Append(data, len, args[k] + [NUL]);
      if !fits { return Overflow; }
      len := len + |args[k]| + 1;
      k := k + 1;
    }
    assert args[k..] == [];
    JoinNothing(data[..len]);
    r := Value(data[..len]);
  }

  lemma {:induction false} JoinNothing(data: seq<byte>)
    ensures data + JoinStrings([]) == data
  {
  }

  lemma {:induction false} JoinNext(args: seq<seq<byte>>, k: nat, data: seq<byte>)
    requires k < |args|
    ensures data + JoinStrings(args[k..]) == data + (args[k] + [NUL]) + JoinStrings(args[k + 1..])
  {
    assert args[k..][1..] == args[k + 1..];
  }

  method PrintStrings(data: seq<byte>) returns (out: seq<byte>)
    requires data != []
    ensures out == [QUOTE] + Quoted(Strings(data)) + [QUOTE]
  {
    hide Quoted, Strings;
    out := [QUOTE];
    var j: nat := 0;
    assert data[0..] == data;
    ghost var all := [QUOTE] + Quoted(Strings(data));
    while j < |data|
      invariant Pending(data, j, out) == all
      decreases |data| + 1 - j
    {
      var head := if j > 0 then SEPARATOR else [];
      var n := Strlen(data[j..]);
      PrintOneString(data, j, out);
      out := out + head + data[j..][..n];
      j := j + n + 1;
    }
    out := out + [QUOTE];
  }

  /** The text so far and what is still to come from position j. */
  ghost function Pending(data: seq<byte>, j: nat, out: seq<byte>): seq<byte> {
    if j >= |data| then out
    else out + (if j > 0 then SEPARATOR else []) + Quoted(Strings(data[j..]))
  }

  lemma {:induction false} PrintOneString(data: seq<byte>, j: nat, out: seq<byte>)
    requires j < |data|
    ensures var n := Strlen(data[j..]);
            var head := if j > 0 then SEPARATOR else [];
            Pending(data, j + n + 1, out + head + data[j..][..n]) == Pending(data, j, out)
  {
    hide Quoted, Strings, SEPARATOR, Strlen;
    var rest := data[j..];
    var n := Strlen(rest);
    OneString(rest);
    assert j + n + 1 <= |data| ==> rest[n + 1..] == data[j + n + 1..];
  }

  lemma {:induction false} OneString(data: seq<byte>)
    requires data != []
    ensures var n := Strlen(data);
            && (n + 1 < |data| ==> Quoted(Strings(data)) == data[..n] + SEPARATOR + Quoted(Strings(data[n + 1..])))
            && (n + 1 >= |data| ==> Quoted(Strings(data)) == data[..n])
  {
    var n := Strlen(data);
    var ss := Strings(data);
    if n < |data| {
      assert ss[1..] == Strings(data[n + 1..]);
    }
  }

  method PrintCells(data: seq<byte>) returns (out: seq<byte>)
    requires data != [] && |data| % 4 == 0
    ensures out == [LT] + CellText(data)
  {
    out := [LT];
    assert data[0..] == data;
    for j := 0 to |data| / 4
      invariant out + CellText(data[4 * j..]) == [LT] + CellText(data)
    {
      ghost var rest := data[4 * j..];
      var v := CellOf(data[4 * j..4 * j + 4]);
      assert v == CellOf(rest);
      assert rest[4..] == data[4 * (j + 1)..];
      out := out + CellWord(v) + (if j < |data| / 4 - 1 then [BLANK] else []);
    }
    assert data[|data|..] == [];
    out := out + [GT];
  }

  method PrintBytes(data: seq<byte>) returns (out: seq<byte>)
    requires data != []
    ensures out == [OPEN] + ByteText(data)
  {
    out := [OPEN];
    assert data[0..] == data;
    for j := 0 to |data|
      invariant out + ByteText(data[j..]) == [OPEN] + ByteText(data)
    {
      ghost var rest := data[j..];
      assert rest[1..] == data[j + 1..];
      out := out + Hex(data[j], 2) + (if j < |data| - 1 then [BLANK] else []);
    }
    assert data[|data|..] == [];
    out := out + [CLOSE];
  }

  method PrintData(data: seq<byte>, beyond: byte, address: nat) returns (out: seq<byte>)
    ensures out == Render(Print(data, beyond), address)
  {
    if |data| == 0 { return []; }
    var printable := IsPrintableString(data, beyond);
    if printable {
      out := PrintStrings(data);
    } else if |data| > MAX_DUMP {
      out := Render(Summary(|data|), address);
    } else if |data| % 4 == 0 {
      out := PrintCells(data);
    } else {
      out := PrintBytes(data);
    }
  }
}

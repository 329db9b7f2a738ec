/**
 How fdt_parse_prop ends on command lines that are not a list of numbers with its closing bracket:
 what it refuses, where it reads past the arguments, and where it stores past its data buffer.
 */
module FdtRefusals {
  import opened Bytes
  import opened FdtProperty
  import opened FdtNumbers
  import Ctype

  type Words = seq<(seq<byte>, nat)>

  /** Words with a blank behind each of them, and then some tail. */
  function Led(ws: Words, tail: seq<byte>): seq<byte> {
    if ws == [] then tail else ws[0].0 + [BLANK] + Led(ws[1..], tail)
  }

  ghost predicate NoBlankFirst(s: seq<byte>) { s != [] ==> s[0] != BLANK }

  // ---------------------------------------------------------------- one word further

  lemma {:induction false} WordLeads(args: seq<seq<byte>>, k: nat, i: nat, w: seq<byte>, rest: seq<byte>)
    requires k < |args| && i <= |args[k]| && w != [] && BLANK !in w && Rest(args, k, i) == w + [BLANK] + rest
    ensures var j := i + |w|;
            && j <= |args[k]| && args[k][i..j] == w && args[k][i] == w[0]
            && Rest(args, k, j) == [BLANK] + rest && NoDigitAt(args[k], j)
  {
    hide Rest;
    var j := i + |w|;
    assert Rest(args, k, i)[..|w|] == w;
    WordInside(args, k, i, w);
    assert args[k][i] == args[k][i..j][0];
    RestAdvances(args, k, i, |w|);
    assert (w + [BLANK] + rest)[|w|..] == [BLANK] + rest;
    if j < |args[k]| { assert Rest(args, k, j)[0] == args[k][j]; }
  }

  /** Behind the blank lies the next word, in this argument or the next. */
  lemma {:induction false} BlankLeads(args: seq<seq<byte>>, k: nat, j: nat, rest: seq<byte>)
    requires k < |args| && j <= |args[k]| && Rest(args, k, j) == [BLANK] + rest
    ensures j == |args[k]| ==> k + 1 < |args| && Rest(args, k + 1, 0) == rest
    ensures j < |args[k]| ==> args[k][j] == BLANK && Rest(args, k, j + 1) == rest
  {
    hide Rest;
    assert ([BLANK] + rest)[1..] == rest;
    if j == |args[k]| {
      assert |Rest(args, k, j)| > 0;
      RestOfNext(args, k);
      assert ([BLANK] + Rest(args, k + 1, 0))[1..] == Rest(args, k + 1, 0);
    } else {
      assert Rest(args, k, j)[0] == args[k][j];
      RestAdvances(args, k, j, 1);
    }
  }

  lemma {:induction false} TailStands(args: seq<seq<byte>>, k: nat, i: nat, tail: seq<byte>)
    requires k < |args| && i <= |args[k]| && Rest(args, k, i) == tail && NoBlankFirst(tail)
    ensures tail == [] ==> i == |args[k]| && k + 1 == |args|
    ensures tail != [] ==> i < |args[k]| && args[k][i] == tail[0]
  {
    hide Rest;
    if i < |args[k]| { assert Rest(args, k, i)[0] == args[k][i]; }
  }

  // ---------------------------------------------------------------- cells

  lemma {:induction false} LedStarts(ws: Words, tail: seq<byte>)
    requires AllStand(ws) && NoBlankFirst(tail)
    ensures NoBlankFirst(Led(ws, tail))
  {
    if ws != [] {
      assert Stands(ws[0].0, ws[0].1);
      assert ws[0].0[0] in ws[0].0;
    }
  }

  lemma {:induction false} CellSkips(args: seq<seq<byte>>, k: nat, j: nat, rest: seq<byte>, acc: seq<byte>)
    requires k < |args| && j <= |args[k]| && Rest(args, k, j) == [BLANK] + rest && NoBlankFirst(rest)
    ensures j == |args[k]| ==>
              && k + 1 < |args| && Rest(args, k + 1, 0) == rest
              && ParseCells(args, k, SkipBlanks(args[k], j), acc) == ParseCells(args, k + 1, 0, acc)
    ensures j < |args[k]| ==> Rest(args, k, j + 1) == rest && SkipBlanks(args[k], j) == j + 1
  {
    hide Rest, ParseCells;
    BlankLeads(args, k, j, rest);
    if j == |args[k]| {
      CellsTurn(args, k, acc);
    } else {
      TailStands(args, k, j + 1, rest);
      BlanksEnd(args[k], j);
    }
  }

  lemma {:induction false} BlanksEnd(s: seq<byte>, j: nat)
    requires j < |s| && s[j] == BLANK && (j + 1 < |s| ==> s[j + 1] != BLANK)
    ensures SkipBlanks(s, j) == j + 1
  {
    assert SkipBlanks(s, j + 1) == j + 1;
  }

  /** The cells in front are taken, and the rest is read from where they end. */
  lemma {:induction false} CellsPass(args: seq<seq<byte>>, k: nat, i: nat, ws: Words, tail: seq<byte>, acc: seq<byte>)
    returns (k': nat, i': nat)
    requires k < |args| && i <= |args[k]| && Rest(args, k, i) == Led(ws, tail)
    requires AllStand(ws) && NoBlankFirst(tail) && |acc| + 4 * |ws| <= SCRATCHPAD
    ensures k' < |args| && i' <= |args[k']| && Rest(args, k', i') == tail
    ensures forall n :: 0 <= n < |ws| ==> ws[n].1 < WORD
    ensures ParseCells(args, k, i, acc) == ParseCells(args, k', i', acc + CellValues(ws))
    decreases |ws|
  {
    hide *;
    if ws == [] {
      LedNothing(ws, tail, acc);
      return k, i;
    }
    var w, v, ws' := ws[0].0, ws[0].1, ws[1..];
    CellTaken(args, k, i, ws, tail, acc);
    var j, next := i + |w|, acc + Four(v);
    AllStandMeans(ws);
    ValuesSplit(ws, acc);
    LedStarts(ws', tail);
    CellSkips(args, k, j, Led(ws', tail), next);
    if j == |args[k]| {
      k', i' := CellsPass(args, k + 1, 0, ws', tail, next);
    } else {
      k', i' := CellsPass(args, k, j + 1, ws', tail, next);
    }
  }

  lemma {:induction false} LedNothing(ws: Words, tail: seq<byte>, acc: seq<byte>)
    requires ws == []
    ensures Led(ws, tail) == tail && acc + CellValues(ws) == acc
  {
  }

  lemma {:induction false} CellTaken(args: seq<seq<byte>>, k: nat, i: nat, ws: Words, tail: seq<byte>, acc: seq<byte>)
    requires k < |args| && i <= |args[k]| && ws != [] && Rest(args, k, i) == Led(ws, tail)
    requires AllStand(ws) && |acc| + 4 <= SCRATCHPAD
    ensures var j := i + |ws[0].0|;
            && ws[0].1 < WORD && |acc + Four(ws[0].1)| == |acc| + 4
            && j <= |args[k]| && Rest(args, k, j) == [BLANK] + Led(ws[1..], tail)
            && ParseCells(args, k, i, acc) == ParseCells(args, k, SkipBlanks(args[k], j), acc + Four(ws[0].1))
  {
    hide Rest, ParseCells, Strtoul;
    var w, v := ws[0].0, ws[0].1;
    assert Stands(w, v);
    WordLeads(args, k, i, w, Led(ws[1..], tail));
    OneWord(args, k, i, v, i + |w|, acc);
  }

  lemma {:induction false} CellsEnd(args: seq<seq<byte>>, k: nat, i: nat, acc: seq<byte>)
    requires k < |args| && i <= |args[k]|
    ensures i == |args[k]| && k + 1 == |args| ==> ParseCells(args, k, i, acc) == OffTheEnd
    ensures i < |args[k]| && args[k][i] == GT ==> ParseCells(args, k, i, acc) == Value(acc)
    ensures i < |args[k]| && args[k][i] != GT ==>
              && (|acc| + 4 > SCRATCHPAD ==> ParseCells(args, k, i, acc) == Overflow)
              && (|acc| + 4 <= SCRATCHPAD && !(0x30 <= args[k][i] <= 0x39) ==> ParseCells(args, k, i, acc) == Malformed)
  {
    if i < |args[k]| && !(0x30 <= args[k][i] <= 0x39) { NoNumber(args[k], i); }
    hide Strtoul;
  }

  lemma {:induction false} NoNumber(s: seq<byte>, i: nat)
    requires i < |s| && !(0x30 <= s[i] <= 0x39)
    ensures Strtoul(s, i, 0).end == i
  {
  }

  /**
   Cells and their closing bracket are the value, whatever follows; cells without a bracket run past
   the arguments; a 257th cell is stored past the buffer; and anything else that is no number is refused.
   */
  lemma {:induction false} CellsEndExactly(args: seq<seq<byte>>, ws: Words, tail: seq<byte>)
    requires args != [] && AllStand(ws) && NoBlankFirst(tail) && |ws| <= 256
    requires Join(args) == [0x3C] + Led(ws, tail)
    ensures forall n :: 0 <= n < |ws| ==> ws[n].1 < WORD
    ensures tail == [] ==> Parse(args) == OffTheEnd
    ensures tail != [] && tail[0] == 0x3E ==> Parse(args) == Value(CellValues(ws))
    ensures tail != [] && tail[0] != 0x3E && |ws| == 256 ==> Parse(args) == Overflow
    ensures tail != [] && tail[0] != 0x3E && |ws| < 256 && !(0x30 <= tail[0] <= 0x39) ==> Parse(args) == Malformed
  {
    hide Led, AllStand, ParseCells, ParseStream, Rest, NoBlankFirst, CellValues;
    OpensCells(args, Led(ws, tail));
    var k, i := CellsPass(args, 0, 1, ws, tail, []);
    TailStands(args, k, i, tail);
    assert [] + CellValues(ws) == CellValues(ws);
    CellsEnd(args, k, i, CellValues(ws));
  }

  /** A blank right behind the opening bracket is no number. */
  lemma {:induction false} BlankIsRefused(args: seq<seq<byte>>)
    requires args != [] && |args[0]| > 1 && args[0][0] == 0x3C && args[0][1] == 0x20
    ensures Parse(args) == Malformed
  {
    NoNumber(args[0], 1);
    hide Strtoul;
  }

  // ---------------------------------------------------------------- bytes

  /** Wherever w stands with no digit behind it, the reader takes it for a number with low byte b. */
  ghost predicate ByteStands(w: seq<byte>, b: nat) {
    && w != [] && BLANK !in w && DigitValue(w[0]) < 16 && b < 256
    && forall s: seq<byte>, i: nat :: i + |w| <= |s| && s[i..i + |w|] == w && NoDigitAt(s, i + |w|) ==>
         Strtoul(s, i, 16).end == i + |w| && Strtoul(s, i, 16).value % 256 == b
  }

  ghost predicate AllBytes(ws: Words) { forall k :: 0 <= k < |ws| ==> ByteStands(ws[k].0, ws[k].1) }

  function LowBytes(ws: Words): (r: seq<byte>)
    requires forall k :: 0 <= k < |ws| ==> ws[k].1 < 256
    ensures |r| == |ws|
  {
    if ws == [] then [] else [ws[0].1] + LowBytes(ws[1..])
  }

  /** A hexadecimal number stands for its low byte. */
  lemma {:induction false} HexStandsForByte(w: seq<byte>, v: nat)
    requires 0 < v < WORD && |w| == |DigitsOf(v, 16)| && Spelled(w, 0, DigitsOf(v, 16))
    ensures ByteStands(w, v % 256)
  {
    hide Strtoul, Shows, DigitsOf, Spelled;
    SpelledDigits(w, 0, DigitsOf(v, 16));
    NotBlank(w);
    forall s: seq<byte>, i: nat | i + |w| <= |s| && s[i..i + |w|] == w && NoDigitAt(s, i + |w|)
      ensures Strtoul(s, i, 16) == Number(v, i + |w|)
    {
      SpelledElsewhere(s, i, w, 0, DigitsOf(v, 16));
      HexReadsThere(s, i, v);
    }
  }

  lemma {:induction false} HexReadsThere(s: seq<byte>, i: nat, v: nat)
    requires 0 < v < WORD && Spelled(s, i, DigitsOf(v, 16)) && NoDigitAt(s, i + |DigitsOf(v, 16)|)
    ensures Strtoul(s, i, 16) == Number(v, i + |DigitsOf(v, 16)|)
  {
    NumberIsRead(s, i, v, 16);
    assert Shows(s[i + 0], DigitsOf(v, 16)[0]);
  }

  /** Two digits stand for their byte. */
  lemma {:induction false} TwoDigitsStand(b: byte)
    ensures ByteStands(Hex(b, 2), b)
  {
    hide Strtoul, Hex;
    var w := Hex(b, 2);
    NotBlank(w);
    forall s: seq<byte>, i: nat | i + |w| <= |s| && s[i..i + |w|] == w && NoDigitAt(s, i + |w|)
      ensures Strtoul(s, i, 16) == Number(b, i + |w|)
    {
      ByteReads(s, i, b);
    }
  }

  lemma {:induction false} AllBytesMeans(ws: Words)
    requires AllBytes(ws)
    ensures forall n :: 0 <= n < |ws| ==> ByteStands(ws[n].0, ws[n].1) && ws[n].1 < 256
    ensures ws != [] ==> AllBytes(ws[1..])
  {
    forall n | 0 <= n < |ws| ensures ws[n].1 < 256 { assert ByteStands(ws[n].0, ws[n].1); }
    hide ByteStands;
  }

  lemma {:induction false} BytesSplit(ws: Words, acc: seq<byte>)
    requires forall n :: 0 <= n < |ws| ==> ws[n].1 < 256
    ensures ws == [] ==> acc + LowBytes(ws) == acc
    ensures ws != [] ==> acc + LowBytes(ws) == acc + [ws[0].1 as byte] + LowBytes(ws[1..])
  {
  }

  lemma {:induction false} ByteTaken(args: seq<seq<byte>>, k: nat, i: nat, w: seq<byte>, b: nat, rest: seq<byte>, acc: seq<byte>)
    requires k < |args| && i <= |args[k]| && Rest(args, k, i) == w + [BLANK] + rest
    requires ByteStands(w, b) && |acc| < SCRATCHPAD
    ensures var j := i + |w|;
            && j <= |args[k]| && Rest(args, k, j) == [BLANK] + rest
            && ParseStream(args, k, i, acc) == ParseStream(args, k, j, acc + [b as byte])
  {
    hide Rest, ParseStream, Strtoul;
    WordLeads(args, k, i, w, rest);
    StreamTakes(args, k, i, i + |w|, b, acc);
  }

  lemma {:induction false} StreamTakes(args: seq<seq<byte>>, k: nat, i: nat, j: nat, b: nat, acc: seq<byte>)
    requires k < |args| && i < j <= |args[k]| && DigitValue(args[k][i]) < 16 && b < 256
    requires Strtoul(args[k], i, 16).end == j && Strtoul(args[k], i, 16).value % 256 == b && |acc| < SCRATCHPAD
    ensures ParseStream(args, k, i, acc) == ParseStream(args, k, j, acc + [b as byte])
  {
    hide Strtoul;
  }

  lemma {:induction false} LedWord(ws: Words, tail: seq<byte>)
    requires ws != []
    ensures Led(ws, tail) == ws[0].0 + [BLANK] + Led(ws[1..], tail)
  {
  }

  lemma {:induction false} BytesPass(args: seq<seq<byte>>, k: nat, i: nat, ws: Words, tail: seq<byte>, acc: seq<byte>)
    returns (k': nat, i': nat)
    requires k < |args| && i <= |args[k]| && Rest(args, k, i) == Led(ws, tail)
    requires AllBytes(ws) && |acc| + |ws| <= SCRATCHPAD
    ensures k' < |args| && i' <= |args[k']| && Rest(args, k', i') == tail
    ensures forall n :: 0 <= n < |ws| ==> ws[n].1 < 256
    ensures ParseStream(args, k, i, acc) == ParseStream(args, k', i', acc + LowBytes(ws))
    decreases |ws|
  {
    hide *;
    AllBytesMeans(ws);
    BytesSplit(ws, acc);
    if ws == [] {
      LedNothing(ws, tail, acc);
      return k, i;
    }
    var ws' := ws[1..];
    LedWord(ws, tail);
    ByteTaken(args, k, i, ws[0].0, ws[0].1, Led(ws', tail), acc);
    var j, next := i + |ws[0].0|, acc + [ws[0].1 as byte];
    BlankLeads(args, k, j, Led(ws', tail));
    if j == |args[k]| {
      StreamTurns(args, k, next);
      k', i' := BytesPass(args, k + 1, 0, ws', tail, next);
    } else {
      StreamSkips(args, k, j, next);
      k', i' := BytesPass(args, k, j + 1, ws', tail, next);
    }
  }

  lemma {:induction false} StreamEnd(args: seq<seq<byte>>, k: nat, i: nat, acc: seq<byte>)
    requires k < |args| && i <= |args[k]|
    ensures i == |args[k]| && k + 1 == |args| ==> ParseStream(args, k, i, acc) == OffTheEnd
    ensures i < |args[k]| && args[k][i] == CLOSE ==> ParseStream(args, k, i, acc) == Value(acc)
    ensures i < |args[k]| && args[k][i] != CLOSE && args[k][i] != BLANK ==>
              && (DigitValue(args[k][i]) == 16 ==> ParseStream(args, k, i, acc) == Malformed)
              && (DigitValue(args[k][i]) < 16 && |acc| >= SCRATCHPAD ==> ParseStream(args, k, i, acc) == Overflow)
  {
    hide Strtoul, DigitValue;
  }

  lemma {:induction false} OpensStream(args: seq<seq<byte>>, text: seq<byte>)
    requires args != [] && Join(args) == [OPEN] + text
    ensures 1 <= |args[0]| && args[0][0] == OPEN && Rest(args, 0, 1) == text
  {
    assert args[0..] == args;
    var all := Rest(args, 0, 0);
    assert all == Join(args) && all[..1] == [OPEN];
    WordInside(args, 0, 0, [OPEN]);
    assert args[0][0] == args[0][0..1][0];
    RestAdvances(args, 0, 0, 1);
  }

  /** The same for bytes, of which the buffer holds 1024. */
  lemma {:induction false} BytesEndExactly(args: seq<seq<byte>>, ws: Words, tail: seq<byte>)
    requires args != [] && AllBytes(ws) && NoBlankFirst(tail) && |ws| <= 1024
    requires Join(args) == [0x5B] + Led(ws, tail)
    ensures forall n :: 0 <= n < |ws| ==> ws[n].1 < 256
    ensures tail == [] ==> Parse(args) == OffTheEnd
    ensures tail != [] && tail[0] == 0x5D ==> Parse(args) == Value(LowBytes(ws))
    ensures tail != [] && tail[0] != 0x5D && !Ctype.IsXdigit(tail[0]) ==> Parse(args) == Malformed
    ensures tail != [] && Ctype.IsXdigit(tail[0]) && |ws| == 1024 ==> Parse(args) == Overflow
  {
    hide Led, AllBytes, ParseCells, ParseStream, Rest, LowBytes, Ctype.IsXdigit;
    OpensStream(args, Led(ws, tail));
    var k, i := BytesPass(args, 0, 1, ws, tail, []);
    TailStands(args, k, i, tail);
    assert [] + LowBytes(ws) == LowBytes(ws);
    StreamEnd(args, k, i, LowBytes(ws));
    if tail != [] {
      CharactersAreCtype(tail[0]);
    }
  }
}

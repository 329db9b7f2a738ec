/**
 Numbers as users write them to "fdt set": decimal, octal and hexadecimal text in either case, the
 cells they stand for, and the shape of what print_data prints.
 */
module FdtNumbers {
  import opened Bytes
  import opened Division
  import opened FdtProperty
  import Ctype

  /** The characters of lib/ctype.c that the heuristics and the number reader ask for. */
  lemma {:induction false} CharactersAreCtype(c: byte)
    ensures IsText(c) <==> Ctype.IsPrint(c) || Ctype.IsSpace(c)
    ensures DigitValue(c) < 16 <==> Ctype.IsXdigit(c)
  {
  }

  // ---------------------------------------------------------------- digits

  /** A digit in either case: '0' to '9' for 0 to 9, 'a' or 'A' to 'f' or 'F' for 10 to 15. */
  ghost predicate Shows(c: byte, d: nat) {
    if d < 10 then c == 0x30 + d else d < 16 && (c == 0x57 + d || c == 0x37 + d)
  }

  lemma {:induction false} ShowsIsValue(c: byte, d: nat)
    requires d < 16
    ensures Shows(c, d) <==> DigitValue(c) == d
  {
  }

  /** The digits of v to a base, highest first. */
  function DigitsOf(v: nat, base: nat): (ds: seq<nat>)
    requires 2 <= base <= 16
    ensures ds != [] && forall k :: 0 <= k < |ds| ==> ds[k] < base
    ensures v > 0 ==> ds[0] > 0
    decreases v
  {
    if v < base then [v]
    else
      Shrinks(v, base);
      DigitsOf(v / base, base) + [v % base]
  }

  lemma {:induction false} Shrinks(v: nat, base: nat)
    requires 2 <= base <= v
    ensures 0 < v / base < v && 0 <= v % base < base && v == base * (v / base) + v % base
  {
    DivMod(v, base);
    QuotientBelow(v, base, 1);
    QuotientBelow(v, base, v);
    MulMono(v, 2, base);
    Commutes(v, base);
  }

  lemma {:induction false} Commutes(a: nat, b: nat)
    ensures a * b == b * a
  {
  }

  /** The text s has the digits ds from position i on. */
  ghost predicate Spelled(s: seq<byte>, i: nat, ds: seq<nat>) {
    i + |ds| <= |s| && forall k :: 0 <= k < |ds| ==> Shows(s[i + k], ds[k])
  }

  function Horner(ds: seq<nat>, base: nat): nat {
    if ds == [] then 0 else Horner(ds[..|ds| - 1], base) * base + ds[|ds| - 1]
  }

  lemma {:induction false} DigitsHaveValue(v: nat, base: nat)
    requires 2 <= base <= 16
    ensures Horner(DigitsOf(v, base), base) == v
    decreases v
  {
    var ds := DigitsOf(v, base);
    if v < base {
      assert ds[..0] == [];
    } else {
      Shrinks(v, base);
      DigitsHaveValue(v / base, base);
      assert ds[..|ds| - 1] == DigitsOf(v / base, base);
      Commutes(v / base, base);
    }
  }

  /** The reader folds a run of digits from the left, modulo 2^32. */
  lemma {:induction false} RunIsRead(s: seq<byte>, i: nat, ds: seq<nat>, base: nat)
    requires 2 <= base <= 16 && Spelled(s, i, ds) && forall k :: 0 <= k < |ds| ==> ds[k] < base
    ensures Digits(s, i, base, 0) == Digits(s, i + |ds|, base, Horner(ds, base) % WORD)
    decreases |ds|
  {
    hide Digits, DigitValue, Shows;
    if ds != [] {
      var n := |ds| - 1;
      RunIsRead(s, i, ds[..n], base);
      ShowsIsValue(s[i + n], ds[n]);
      DigitStep(s, i + n, base, Horner(ds[..n], base) % WORD);
      FoldModulo(Horner(ds[..n], base), base, ds[n]);
    } else {
      assert Horner(ds, base) % WORD == 0;
    }
  }

  lemma {:induction false} DigitStep(s: seq<byte>, i: nat, base: nat, acc: nat)
    requires i < |s| && base <= 16 && DigitValue(s[i]) < base
    ensures acc * base + DigitValue(s[i]) >= 0
    ensures Digits(s, i, base, acc) == Digits(s, i + 1, base, (acc * base + DigitValue(s[i])) % WORD)
  {
  }

  lemma {:induction false} FoldModulo(h: nat, base: nat, d: nat)
    ensures (h % WORD * base + d) % WORD == (h * base + d) % WORD
  {
    var q, r := h / WORD, h % WORD;
    assert h == WORD * q + r;
    Reduce(q, r, base, d);
  }

  lemma {:induction false} Reduce(q: nat, r: nat, base: nat, d: nat)
    ensures ((WORD * q + r) * base + d) % WORD == (r * base + d) % WORD
  {
    var k := q * base;
    assert (WORD * q + r) * base + d == WORD * k + (r * base + d);
    DropMultiple(k, r * base + d);
  }

  lemma {:induction false} DropMultiple(k: nat, x: int)
    ensures (WORD * k + x) % WORD == x % WORD
  {
  }

  /** No digit of the base follows. */
  ghost predicate Stops(s: seq<byte>, i: nat, base: nat) { DigitValue(CharAt(s, i)) >= base }

  lemma {:induction false} NumberIsRead(s: seq<byte>, i: nat, v: nat, base: nat)
    requires 2 <= base <= 16 && v < WORD
    requires Spelled(s, i, DigitsOf(v, base)) && Stops(s, i + |DigitsOf(v, base)|, base)
    ensures Digits(s, i, base, 0) == Number(v, i + |DigitsOf(v, base)|)
  {
    hide Horner, DigitsOf, Spelled, DigitValue, Digits;
    RunIsRead(s, i, DigitsOf(v, base), base);
    DigitsHaveValue(v, base);
    NoMoreDigits(s, i + |DigitsOf(v, base)|, base, v);
  }

  lemma {:induction false} NoMoreDigits(s: seq<byte>, i: nat, base: nat, acc: nat)
    requires i <= |s| && base <= 16 && DigitValue(CharAt(s, i)) >= base
    ensures Digits(s, i, base, acc) == Number(acc, i)
  {
  }

  /** Decimal text without a leading zero is read in base ten. */
  lemma {:induction false} DecimalIsRead(s: seq<byte>, i: nat, v: nat)
    requires 0 < v < WORD && Spelled(s, i, DigitsOf(v, 10)) && Stops(s, i + |DigitsOf(v, 10)|, 10)
    ensures Strtoul(s, i, 0) == Number(v, i + |DigitsOf(v, 10)|)
  {
    NumberIsRead(s, i, v, 10);
    assert Shows(s[i + 0], DigitsOf(v, 10)[0]);
  }

  /** Text with a leading zero is read in base eight. */
  lemma {:induction false} OctalIsRead(s: seq<byte>, i: nat, v: nat)
    requires v < WORD && i < |s| && s[i] == 0x30
    requires Spelled(s, i + 1, DigitsOf(v, 8)) && Stops(s, i + 1 + |DigitsOf(v, 8)|, 8)
    ensures Strtoul(s, i, 0) == Number(v, i + 1 + |DigitsOf(v, 8)|)
  {
    NumberIsRead(s, i + 1, v, 8);
    assert Shows(s[i + 1 + 0], DigitsOf(v, 8)[0]);
  }

  /** Text behind "0x" is read in base sixteen, in either case, and so is any text where the caller says so. */
  lemma {:induction false} HexIsRead(s: seq<byte>, i: nat, v: nat)
    requires v < WORD && i + 2 <= |s| && s[i] == 0x30 && s[i + 1] == 0x78
    requires Spelled(s, i + 2, DigitsOf(v, 16)) && Stops(s, i + 2 + |DigitsOf(v, 16)|, 16)
    ensures Strtoul(s, i, 0) == Number(v, i + 2 + |DigitsOf(v, 16)|)
  {
    NumberIsRead(s, i + 2, v, 16);
    assert Shows(s[i + 2 + 0], DigitsOf(v, 16)[0]);
    ShowsIsValue(s[i + 2], DigitsOf(v, 16)[0]);
  }

  // ---------------------------------------------------------------- cells

  /** Wherever w stands with no digit behind it, the reader takes it for v. */
  ghost predicate Stands(w: seq<byte>, v: nat) {
    && w != [] && BLANK !in w && w[0] != GT && v < WORD
    && forall s: seq<byte>, i: nat :: i + |w| <= |s| && s[i..i + |w|] == w && NoDigitAt(s, i + |w|) ==>
         Strtoul(s, i, 0) == Number(v, i + |w|)
  }

  lemma {:induction false} SpelledElsewhere(s: seq<byte>, i: nat, w: seq<byte>, j: nat, ds: seq<nat>)
    requires i + |w| <= |s| && s[i..i + |w|] == w && Spelled(w, j, ds)
    ensures Spelled(s, i + j, ds)
  {
    hide Shows;
    forall k | 0 <= k < |ds| ensures Shows(s[i + j + k], ds[k]) {
      assert s[i + j + k] == s[i..i + |w|][j + k];
    }
  }

  lemma {:induction false} NotBlank(w: seq<byte>)
    requires forall k :: 0 <= k < |w| ==> DigitValue(w[k]) < 16 || w[k] == EX
    ensures BLANK !in w && (w != [] ==> w[0] != GT)
  {
  }

  lemma {:induction false} SpelledDigits(w: seq<byte>, j: nat, ds: seq<nat>)
    requires Spelled(w, j, ds) && forall k :: 0 <= k < |ds| ==> ds[k] < 16
    ensures forall k :: j <= k < j + |ds| ==> DigitValue(w[k]) < 16
  {
    forall k | j <= k < j + |ds| ensures DigitValue(w[k]) < 16 {
      assert Shows(w[j + (k - j)], ds[k - j]);
    }
  }

  /** Decimal, octal and hexadecimal words stand for their values. */
  lemma {:induction false} DecimalStands(w: seq<byte>, v: nat)
    requires 0 < v < WORD && |w| == |DigitsOf(v, 10)| && Spelled(w, 0, DigitsOf(v, 10))
    ensures Stands(w, v)
  {
    hide Strtoul, Shows, DigitsOf, Spelled;
    SpelledDigits(w, 0, DigitsOf(v, 10));
    NotBlank(w);
    forall s: seq<byte>, i: nat | i + |w| <= |s| && s[i..i + |w|] == w && NoDigitAt(s, i + |w|)
      ensures Strtoul(s, i, 0) == Number(v, i + |w|)
    {
      SpelledElsewhere(s, i, w, 0, DigitsOf(v, 10));
      DecimalIsRead(s, i, v);
    }
  }

  lemma {:induction false} OctalStands(w: seq<byte>, v: nat)
    requires v < WORD && |w| == 1 + |DigitsOf(v, 8)| && w[0] == 0x30 && Spelled(w, 1, DigitsOf(v, 8))
    ensures Stands(w, v)
  {
    hide Strtoul, Shows, DigitsOf, Spelled;
    SpelledDigits(w, 1, DigitsOf(v, 8));
    NotBlank(w);
    forall s: seq<byte>, i: nat | i + |w| <= |s| && s[i..i + |w|] == w && NoDigitAt(s, i + |w|)
      ensures Strtoul(s, i, 0) == Number(v, i + |w|)
    {
      SpelledElsewhere(s, i, w, 1, DigitsOf(v, 8));
      assert s[i] == s[i..i + |w|][0];
      OctalIsRead(s, i, v);
    }
  }

  lemma {:induction false} HexStands(w: seq<byte>, v: nat)
    requires v < WORD && |w| == 2 + |DigitsOf(v, 16)| && w[0] == 0x30 && w[1] == 0x78 && Spelled(w, 2, DigitsOf(v, 16))
    ensures Stands(w, v)
  {
    hide Strtoul, Shows, DigitsOf, Spelled;
    SpelledDigits(w, 2, DigitsOf(v, 16));
    NotBlank(w);
    forall s: seq<byte>, i: nat | i + |w| <= |s| && s[i..i + |w|] == w && NoDigitAt(s, i + |w|)
      ensures Strtoul(s, i, 0) == Number(v, i + |w|)
    {
      SpelledElsewhere(s, i, w, 2, DigitsOf(v, 16));
      assert s[i] == s[i..i + |w|][0] && s[i + 1] == s[i..i + |w|][1];
      HexIsRead(s, i, v);
    }
  }

  /** Words with blanks between them and the closing bracket. */
  function WordText(ws: seq<(seq<byte>, nat)>): (t: seq<byte>)
    ensures |t| > 0
  {
    if ws == [] then [GT]
    else if |ws| == 1 then ws[0].0 + [GT]
    else ws[0].0 + [BLANK] + WordText(ws[1..])
  }

  ghost predicate AllStand(ws: seq<(seq<byte>, nat)>) { forall k :: 0 <= k < |ws| ==> Stands(ws[k].0, ws[k].1) }

  function Four(v: nat): (r: seq<byte>)
    requires v < WORD
    ensures r == [v / 0x100_0000, v / 0x1_0000 % 0x100, v / 0x100 % 0x100, v % 0x100]
  {
    BytesOfWord(v)
  }

  /** Four bytes to a cell, the highest first. */
  function CellValues(ws: seq<(seq<byte>, nat)>): (r: seq<byte>)
    requires forall k :: 0 <= k < |ws| ==> ws[k].1 < WORD
    ensures |r| == 4 * |ws|
  {
    if ws == [] then [] else Four(ws[0].1) + CellValues(ws[1..])
  }

  lemma {:induction false} WordSeparator(args: seq<seq<byte>>, k: nat, i: nat, ws: seq<(seq<byte>, nat)>)
    requires ws != [] && k < |args| && i + |ws[0].0| <= |args[k]| && Rest(args, k, i) == WordText(ws)
    ensures var j := i + |ws[0].0|;
            && (|ws| == 1 ==> Rest(args, k, j) == [GT])
            && (|ws| > 1 ==> Rest(args, k, j) == [BLANK] + WordText(ws[1..]))
            && NoDigitAt(args[k], j) && (|ws| > 1 && j == |args[k]| ==> k + 1 < |args|)
  {
    var w := ws[0].0;
    var j := i + |w|;
    RestAdvances(args, k, i, |w|);
    var t := Rest(args, k, j);
    if |ws| == 1 {
      assert t == [GT];
    } else {
      assert t == [BLANK] + WordText(ws[1..]);
    }
    if j < |args[k]| {
      assert t[0] == args[k][j];
    }
  }

  lemma {:induction false} WordStep(args: seq<seq<byte>>, k: nat, i: nat, ws: seq<(seq<byte>, nat)>)
    requires ws != [] && Stands(ws[0].0, ws[0].1) && k < |args| && i <= |args[k]| && Rest(args, k, i) == WordText(ws)
    ensures var w := ws[0].0;
            && i + |w| <= |args[k]| && args[k][i] != GT
            && Strtoul(args[k], i, 0) == Number(ws[0].1, i + |w|)
  {
    hide Strtoul;
    var w := ws[0].0;
    assert Rest(args, k, i)[..|w|] == w;
    WordInside(args, k, i, w);
    assert args[k][i] == args[k][i..i + |w|][0];
    WordSeparator(args, k, i, ws);
  }

  /** The text behind the blank, reached by skipping it or by turning to the next argument. */
  lemma {:induction false} BehindBlank(args: seq<seq<byte>>, k: nat, i: nat, ws: seq<(seq<byte>, nat)>, acc: seq<byte>)
    requires ws != [] && Stands(ws[0].0, ws[0].1) && k < |args| && i <= |args[k]|
    requires Rest(args, k, i) == [BLANK] + WordText(ws)
    requires i == |args[k]| ==> k + 1 < |args|
    ensures i == |args[k]| ==>
              && Rest(args, k + 1, 0) == WordText(ws)
              && ParseCells(args, k, SkipBlanks(args[k], i), acc) == ParseCells(args, k + 1, 0, acc)
    ensures i < |args[k]| ==>
              && Rest(args, k, i + 1) == WordText(ws)
              && ParseCells(args, k, SkipBlanks(args[k], i), acc) == ParseCells(args, k, i + 1, acc)
  {
    hide ParseCells, WordText, Stands;
    var t := Rest(args, k, i);
    assert t[1..] == WordText(ws);
    if i == |args[k]| {
      RestOfNext(args, k);
      assert ([BLANK] + Rest(args, k + 1, 0))[1..] == Rest(args, k + 1, 0);
      CellsTurn(args, k, acc);
    } else {
      assert t[0] == args[k][i];
      RestAdvances(args, k, i, 1);
      FirstOfWord(args, k, i + 1, ws);
      OneBlank(args[k], i);
    }
  }

  lemma {:induction false} CellsTurn(args: seq<seq<byte>>, k: nat, acc: seq<byte>)
    requires k < |args|
    ensures ParseCells(args, k, SkipBlanks(args[k], |args[k]|), acc) == ParseCells(args, k + 1, 0, acc)
  {
  }

  lemma {:induction false} FirstOfWord(args: seq<seq<byte>>, k: nat, i: nat, ws: seq<(seq<byte>, nat)>)
    requires ws != [] && Stands(ws[0].0, ws[0].1) && k < |args| && i <= |args[k]| && Rest(args, k, i) == WordText(ws)
    ensures i < |args[k]| && args[k][i] != BLANK
  {
    var w := ws[0].0;
    assert Rest(args, k, i)[..|w|] == w;
    WordInside(args, k, i, w);
    assert args[k][i] == args[k][i..i + |w|][0] == w[0];
    assert w[0] in w;
  }

  lemma {:induction false} OneBlank(s: seq<byte>, i: nat)
    requires i + 1 < |s| && s[i] == BLANK && s[i + 1] != BLANK
    ensures SkipBlanks(s, i) == i + 1
  {
    assert SkipBlanks(s, i + 1) == i + 1;
  }

  lemma {:induction false} OneWord(args: seq<seq<byte>>, k: nat, i: nat, v: nat, j: nat, acc: seq<byte>)
    requires k < |args| && i < j <= |args[k]| && args[k][i] != GT && v < WORD
    requires Strtoul(args[k], i, 0) == Number(v, j) && |acc| + 4 <= SCRATCHPAD
    ensures ParseCells(args, k, i, acc)
         == ParseCells(args, k, SkipBlanks(args[k], j), acc + Four(v))
  {
    hide Strtoul;
  }

  /** Cells in whatever notation, cut at blanks in whatever way, give their bytes. */
  lemma {:induction false} WordsComeBack(args: seq<seq<byte>>, k: nat, i: nat, ws: seq<(seq<byte>, nat)>, acc: seq<byte>)
    requires k < |args| && i <= |args[k]| && Rest(args, k, i) == WordText(ws) && AllStand(ws)
    requires |acc| + 4 * |ws| <= SCRATCHPAD
    ensures forall k :: 0 <= k < |ws| ==> ws[k].1 < WORD
    ensures ParseCells(args, k, i, acc) == Value(acc + CellValues(ws))
    decreases |ws|
  {
    hide *;
    AllStandMeans(ws);
    if ws == [] {
      NoWords(args, k, i, ws, acc);
    } else {
      var v, j, rest := ws[0].1, i + |ws[0].0|, ws[1..];
      WordStep(args, k, i, ws);
      WordSeparator(args, k, i, ws);
      Room(acc, ws);
      OneWord(args, k, i, v, j, acc);
      var acc' := acc + Four(v);
      ValuesSplit(ws, acc);
      if |ws| == 1 {
        LastCell(args, k, j, acc');
      } else {
        AllStandMeans(rest);
        BehindBlank(args, k, j, rest, acc');
        if j == |args[k]| {
          WordsComeBack(args, k + 1, 0, rest, acc');
        } else {
          WordsComeBack(args, k, j + 1, rest, acc');
        }
      }
    }
  }

  lemma {:induction false} Room(acc: seq<byte>, ws: seq<(seq<byte>, nat)>)
    requires ws != [] && |acc| + 4 * |ws| <= SCRATCHPAD && ws[0].1 < WORD
    ensures |acc| + 4 <= SCRATCHPAD && |acc + Four(ws[0].1)| + 4 * |ws[1..]| <= SCRATCHPAD
  {
  }

  lemma {:induction false} NoWords(args: seq<seq<byte>>, k: nat, i: nat, ws: seq<(seq<byte>, nat)>, acc: seq<byte>)
    requires ws == [] && k < |args| && i <= |args[k]| && Rest(args, k, i) == WordText(ws)
    ensures ParseCells(args, k, i, acc) == Value(acc + CellValues(ws))
  {
    LastCell(args, k, i, acc);
  }

  lemma {:induction false} AllStandMeans(ws: seq<(seq<byte>, nat)>)
    requires AllStand(ws)
    ensures forall k :: 0 <= k < |ws| ==> Stands(ws[k].0, ws[k].1) && ws[k].0 != [] && ws[k].1 < WORD
    ensures ws != [] ==> AllStand(ws[1..])
  {
    forall k | 0 <= k < |ws| ensures ws[k].0 != [] && ws[k].1 < WORD { StandsMeans(ws[k].0, ws[k].1); }
    hide Stands;
  }

  lemma {:induction false} ValuesSplit(ws: seq<(seq<byte>, nat)>, acc: seq<byte>)
    requires ws != [] && forall k :: 0 <= k < |ws| ==> ws[k].1 < WORD
    ensures acc + CellValues(ws) == acc + Four(ws[0].1) + CellValues(ws[1..])
    ensures |ws| == 1 ==> acc + CellValues(ws) == acc + Four(ws[0].1)
  {
    hide Four;
    var x, y := Four(ws[0].1), CellValues(ws[1..]);
    assert CellValues(ws) == x + y;
    hide CellValues;
    Associate(acc, x, y);
    if |ws| == 1 {
      assert y == [];
      assert x + y == x;
    }
  }

  lemma {:induction false} Associate(a: seq<byte>, b: seq<byte>, c: seq<byte>)
    ensures a + (b + c) == a + b + c
  {
  }

  lemma {:induction false} StandsMeans(w: seq<byte>, v: nat)
    requires Stands(w, v)
    ensures w != [] && v < WORD
  {
  }

  /** "fdt set" with cells in brackets stores them big-endian, whatever their notation. */
  lemma {:induction false} CellsAreStored(args: seq<seq<byte>>, ws: seq<(seq<byte>, nat)>)
    requires args != [] && AllStand(ws) && 4 * |ws| <= SCRATCHPAD && Join(args) == [LT] + WordText(ws)
    ensures forall k :: 0 <= k < |ws| ==> ws[k].1 < WORD
    ensures Parse(args) == Value(CellValues(ws))
  {
    hide WordText, Stands, Strtoul, AllStand, ParseCells, ParseStream, CellValues;
    OpensCells(args, WordText(ws));
    AllStandMeans(ws);
    WordsComeBack(args, 0, 1, ws, []);
    assert [] + CellValues(ws) == CellValues(ws);
  }

  lemma {:induction false} OpensCells(args: seq<seq<byte>>, text: seq<byte>)
    requires args != [] && Join(args) == [LT] + text
    ensures 1 <= |args[0]| && args[0][0] == LT && Rest(args, 0, 1) == text
  {
    assert args[0..] == args;
    var all := Rest(args, 0, 0);
    assert all == Join(args) && all[..1] == [LT];
    WordInside(args, 0, 0, [LT]);
    assert args[0][0] == args[0][0..1][0];
    RestAdvances(args, 0, 0, 1);
  }

  /** <10> is ten. */
  lemma {:induction false} TenIsTen()
    ensures Parse([[0x3C, 0x31, 0x30, 0x3E]]) == Value([0, 0, 0, 10])
  {
    var w: seq<byte> := [0x31, 0x30];
    var ws: seq<(seq<byte>, nat)> := [(w, 10)];
    TenInDigits();
    DecimalStands(w, 10);
    hide DigitsOf, Stands, Parse;
    var args: seq<seq<byte>> := [[0x3C, 0x31, 0x30, 0x3E]];
    assert WordText(ws) == w + [GT];
    assert Join(args) == [LT] + WordText(ws);
    CellsAreStored(args, ws);
    assert ws[1..] == [] && CellValues(ws) == Four(10) + [];
  }

  lemma {:induction false} TenInDigits()
    ensures DigitsOf(10, 10) == [1, 0] && Spelled([0x31, 0x30], 0, [1, 0])
  {
    assert 10 / 10 == 1 && 10 % 10 == 0;
    assert DigitsOf(1, 10) == [1];
  }

  // ---------------------------------------------------------------- what is printed

  lemma {:induction false} CellTextShape(data: seq<byte>)
    requires |data| % 4 == 0 && data != []
    ensures |CellText(data)| == 11 * (|data| / 4)
  {
    if |data| > 4 { CellTextShape(data[4..]); }
  }

  lemma {:induction false} ByteTextShape(data: seq<byte>)
    requires data != []
    ensures |ByteText(data)| == 3 * |data|
  {
    if |data| > 1 { ByteTextShape(data[1..]); }
  }

  /** A value that is not printable is dumped in cells when it has whole cells, else in bytes, and up to 64 bytes only. */
  lemma {:induction false} DumpShape(data: seq<byte>, beyond: byte)
    requires data != [] && !Printable(data, beyond)
    ensures |data| > 64 <==> Print(data, beyond) == Summary(|data|)
    ensures |data| <= 64 && |data| % 4 == 0 ==>
              var p := Print(data, beyond); p.Dump? && p.text[0] == 0x3C && |p.text| == 11 * (|data| / 4) + 1
    ensures |data| <= 64 && |data| % 4 != 0 ==>
              var p := Print(data, beyond); p.Dump? && p.text[0] == 0x5B && |p.text| == 3 * |data| + 1
  {
    hide CellText, ByteText, Printable;
    if |data| % 4 == 0 { CellTextShape(data); } else { ByteTextShape(data); }
  }

  /** 0x00abcdef, and two strings in quotes. */
  lemma {:induction false} PrintedExamples()
    ensures CellWord(0xABCDEF) == [0x30, 0x78] + [0x30, 0x30, 0x61, 0x62, 0x63, 0x64, 0x65, 0x66]
    ensures Render(StringList([[0x61], [0x62]]), 0) == [0x22, 0x61, 0x22, 0x2C, 0x20, 0x22, 0x62, 0x22]
  {
    EightDigits();
    var ss: seq<seq<byte>> := [[0x61], [0x62]];
    assert ss[1..] == [[0x62]];
    assert Quoted(ss) == [0x61] + SEPARATOR + [0x62];
  }

  lemma {:induction false} EightDigits()
    ensures Hex(0xABCDEF, 8) == [0x30, 0x30, 0x61, 0x62, 0x63, 0x64, 0x65, 0x66]
  {
    assert Hex(0, 0) == [];
    assert Hex(0, 1) == [] + [0x30];
    assert Hex(0, 2) == [] + [0x30] + [0x30];
    assert Hex(0xA, 3) == Hex(0, 2) + [0x61];
    assert Hex(0xAB, 4) == Hex(0xA, 3) + [0x62];
    assert Hex(0xABC, 5) == Hex(0xAB, 4) + [0x63];
    assert Hex(0xABCD, 6) == Hex(0xABC, 5) + [0x64];
    assert Hex(0xABCDE, 7) == Hex(0xABCD, 6) + [0x65];
    assert Hex(0xABCDEF, 8) == Hex(0xABCDE, 7) + [0x66];
  }
}

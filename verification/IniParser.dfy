/**
 The INI parser: memgets hands out the lines of a file in memory, rstrip, lskip and
 find_char_or_comment cut a line, and ini_parse calls a handler for every name and value.
 */
module IniParser {
  import opened Bytes
  import Ctype

  const MAX_LINE := 200
  const MAX_SECTION := 50
  const MAX_NAME := 50

  const NUL: byte := 0
  const NEWLINE: byte := 10
  const QUOTE: byte := 0x22
  const HASH: byte := 0x23
  const COLON: byte := 0x3A
  const SEMICOLON: byte := 0x3B
  const EQUALS: byte := 0x3D
  const OPEN: byte := 0x5B
  const CLOSE: byte := 0x5D

  /** isspace of lib/ctype.c. */
  predicate IsSpace(c: byte) { 9 <= c <= 13 || c == 32 || c == 160 }

  lemma {:induction false} SpaceIsCtype(c: byte)
    ensures IsSpace(c) <==> Ctype.IsSpace(c)
  {
  }

  // ---------------------------------------------------------------- strings

  /** The characters before the first NUL. */
  function CString(s: seq<byte>): (t: seq<byte>)
    ensures t <= s && NUL !in t && (|t| < |s| ==> s[|t|] == NUL)
  {
    if s == [] || s[0] == NUL then [] else [s[0]] + CString(s[1..])
  }

  function RStrip(s: seq<byte>): (t: seq<byte>)
    ensures t <= s && (t != [] ==> !IsSpace(t[|t| - 1]))
    ensures forall i :: |t| <= i < |s| ==> IsSpace(s[i])
  {
    if s != [] && IsSpace(s[|s| - 1]) then RStrip(s[..|s| - 1]) else s
  }

  /** The number of leading spaces. */
  function Leading(s: seq<byte>): (n: nat)
    ensures n <= |s| && (n < |s| ==> !IsSpace(s[n]))
    ensures forall i :: 0 <= i < n ==> IsSpace(s[i])
  {
    if s != [] && IsSpace(s[0]) then 1 + Leading(s[1..]) else 0
  }

  function LSkip(s: seq<byte>): seq<byte> { s[Leading(s)..] }

  /** Character i ends the search for c: it is c, or a semicolon behind a space. */
  predicate Stops(s: seq<byte>, c: byte, i: nat)
    requires i < |s|
  {
    s[i] == c || (s[i] == SEMICOLON && i > 0 && IsSpace(s[i - 1]))
  }

  function Find(s: seq<byte>, c: byte, i: nat): (r: nat)
    requires i <= |s|
    ensures i <= r <= |s| && (r < |s| ==> Stops(s, c, r))
    ensures forall j :: i <= j < r ==> !Stops(s, c, j)
    decreases |s| - i
  {
    if i < |s| && !Stops(s, c, i) then Find(s, c, i + 1) else i
  }

  lemma {:induction false} FindIs(s: seq<byte>, c: byte, r: nat)
    requires r <= |s| && (r < |s| ==> Stops(s, c, r)) && forall j :: 0 <= j < r ==> !Stops(s, c, j)
    ensures Find(s, c, 0) == r
  {
  }

  function CharAt(s: seq<byte>, i: nat): byte { if i < |s| then s[i] else NUL }

  /** strncpy0 into an array of the given size. */
  function Truncated(s: seq<byte>, size: nat): seq<byte>
    requires size > 0
  {
    if |s| < size then s else s[..size - 1]
  }

  // ---------------------------------------------------------------- one line

  datatype Line =
    | Ignored
    | Header(section: seq<byte>)
    | Continued(more: seq<byte>)
    | Pair(name: seq<byte>, value: seq<byte>)
    | Malformed

  function Unquoted(v: seq<byte>): seq<byte> {
    if v != [] && v[0] == QUOTE && v[|v| - 1] == QUOTE then
      if |v| == 1 then [] else v[1..|v| - 1]
    else v
  }

  /** The value behind the separator. */
  function ValueOf(rest: seq<byte>): seq<byte> {
    var v := LSkip(rest);
    Unquoted(RStrip(v[..Find(v, NUL, 0)]))
  }

  /** Where the separator of a pair stands. */
  function Separator(s: seq<byte>): (r: nat)
    ensures r <= |s|
  {
    var e := Find(s, EQUALS, 0);
    if CharAt(s, e) == EQUALS then e else Find(s, COLON, 0)
  }

  function ParseStart(s: seq<byte>): Line {
    if s == [] then Ignored
    else if s[0] == OPEN then
      var e := Find(s[1..], CLOSE, 0);
      if CharAt(s[1..], e) == CLOSE then Header(s[1..][..e]) else Malformed
    else
      var e := Separator(s);
      if CharAt(s, e) == EQUALS || CharAt(s, e) == COLON then Pair(RStrip(s[..e]), ValueOf(s[e + 1..]))
      else Malformed
  }

  /** What ini_parse makes of a line; goesOn says whether a name is open for continuation lines. */
  function ParseLine(text: seq<byte>, goesOn: bool): Line {
    var t := RStrip(text);
    var s := LSkip(t);
    if s != [] && (s[0] == SEMICOLON || s[0] == HASH) then Ignored
    else if goesOn && s != [] && |s| < |t| then Continued(s)
    else ParseStart(s)
  }

  // ---------------------------------------------------------------- the whole file

  /** The end of the line that starts at pos, newline included. */
  function LineEnd(file: seq<byte>, pos: nat): (e: nat)
    requires pos <= |file|
    ensures pos <= e <= |file| && (pos < |file| ==> pos < e)
    ensures forall i :: pos <= i < e - 1 ==> file[i] != NEWLINE
    ensures e < |file| ==> e > pos && file[e - 1] == NEWLINE
    decreases |file| - pos
  {
    if pos == |file| then pos
    else if file[pos] == NEWLINE then pos + 1
    else LineEnd(file, pos + 1)
  }

  function Lines(file: seq<byte>, pos: nat): seq<seq<byte>>
    requires pos <= |file|
    decreases |file| - pos
  {
    if pos == |file| then [] else [file[pos..LineEnd(file, pos)]] + Lines(file, LineEnd(file, pos))
  }

  function Flatten(ls: seq<seq<byte>>): seq<byte> { if ls == [] then [] else ls[0] + Flatten(ls[1..]) }

  /** The lines partition the file; only the last may lack its newline. */
  lemma {:induction false} LinesPartition(file: seq<byte>, pos: nat)
    requires pos <= |file|
    ensures Flatten(Lines(file, pos)) == file[pos..]
    ensures var ls := Lines(file, pos);
            forall k :: 0 <= k < |ls| ==> OneLine(ls[k]) && (k < |ls| - 1 ==> ls[k][|ls[k]| - 1] == NEWLINE)
    decreases |file| - pos
  {
    if pos < |file| {
      hide *;
      var e := LineEnd(file, pos);
      LinesPartition(file, e);
      LineIsOne(file, pos);
      LinesHead(file, pos);
      FlattenPrepends(file[pos..e], Lines(file, e));
      CutFile(file, pos, e);
    } else {
      assert file[pos..] == [];
    }
  }

  lemma {:induction false} LinesHead(file: seq<byte>, pos: nat)
    requires pos < |file|
    ensures var e := LineEnd(file, pos);
            Lines(file, pos) == [file[pos..e]] + Lines(file, e) && (e == |file| ==> Lines(file, e) == [])
  {
  }

  lemma {:induction false} CutFile(file: seq<byte>, pos: nat, e: nat)
    requires pos <= e <= |file|
    ensures file[pos..] == file[pos..e] + file[e..]
  {
  }

  /** Not empty, and no newline but perhaps at the end. */
  ghost predicate OneLine(l: seq<byte>) {
    l != [] && forall i :: 0 <= i < |l| - 1 ==> l[i] != NEWLINE
  }

  lemma {:induction false} LineIsOne(file: seq<byte>, pos: nat)
    requires pos < |file|
    ensures var l := file[pos..LineEnd(file, pos)];
            OneLine(l) && (LineEnd(file, pos) < |file| ==> l[|l| - 1] == NEWLINE)
  {
  }

  lemma {:induction false} FlattenPrepends(l: seq<byte>, ls: seq<seq<byte>>)
    ensures Flatten([l] + ls) == l + Flatten(ls)
  {
    assert ([l] + ls)[1..] == ls;
  }

  datatype Call = Call(section: seq<byte>, name: seq<byte>, value: seq<byte>)

  /** The local variables of ini_parse, and the calls made so far. */
  datatype Ini = Ini(section: seq<byte>, prevName: seq<byte>, lineno: nat, error: nat, calls: seq<Call>)

  const START: Ini := Ini([], [], 0, 0, [])

  type Handler = Call -> bool

  function Report(st: Ini, accepted: bool): Ini {
    if !accepted && st.error == 0 then st.(error := st.lineno) else st
  }

  function Invoke(st: Ini, call: Call, handler: Handler): Ini {
    Report(st.(calls := st.calls + [call]), handler(call))
  }

  function Effect(st: Ini, line: Line, handler: Handler): Ini {
    match line
    case Ignored => st
    case Header(s) => st.(section := Truncated(s, MAX_SECTION), prevName := [])
    case Continued(more) => Invoke(st, Call(st.section, st.prevName, more), handler)
    case Pair(n, v) => Invoke(st.(prevName := Truncated(n, MAX_NAME)), Call(st.section, n, v), handler)
    case Malformed => Report(st, false)
  }

  /** One turn of the loop on the string in the line buffer. */
  function StepText(st: Ini, text: seq<byte>, multiline: bool, handler: Handler): Ini {
    var st' := st.(lineno := st.lineno + 1);
    Effect(st', ParseLine(text, multiline && st.prevName != []), handler)
  }

  /** The part of a line that reaches the buffer. */
  function Buffered(line: seq<byte>): seq<byte> { if |line| < MAX_LINE then line else line[..MAX_LINE] }

  /** The buffer ends up without a NUL: the line is too long and holds none in time. */
  predicate RunsOff(line: seq<byte>) { |line| >= MAX_LINE && NUL !in Buffered(line) }

  datatype Outcome = Returned(state: Ini) | Overrun(state: Ini)

  function ParseLines(ls: seq<seq<byte>>, st: Ini, multiline: bool, handler: Handler): Outcome {
    if ls == [] then Returned(st)
    else if RunsOff(ls[0]) then Overrun(st)
    else ParseLines(ls[1..], StepText(st, CString(Buffered(ls[0])), multiline, handler), multiline, handler)
  }

  /** At a a line begins whose first MAX_LINE bytes hold no NUL, and no newline but perhaps as the last of them. */
  ghost predicate LongLineAt(file: seq<byte>, a: nat) {
    && (a == 0 || (a <= |file| && file[a - 1] == NEWLINE)) && a + MAX_LINE <= |file|
    && (forall i :: a <= i < a + MAX_LINE ==> file[i] != NUL)
    && (forall i :: a <= i < a + MAX_LINE - 1 ==> file[i] != NEWLINE)
  }

  lemma {:induction false} RunsOffAt(file: seq<byte>, pos: nat)
    requires pos < |file| && (pos == 0 || file[pos - 1] == NEWLINE)
    ensures RunsOff(file[pos..LineEnd(file, pos)]) <==> LongLineAt(file, pos)
  {
    var e := LineEnd(file, pos);
    var line := file[pos..e];
    if RunsOff(line) {
      forall i | pos <= i < pos + MAX_LINE ensures file[i] != NUL {
        assert Buffered(line)[i - pos] == file[i];
      }
    }
    if LongLineAt(file, pos) {
      assert e >= pos + MAX_LINE;
      forall i | 0 <= i < MAX_LINE ensures Buffered(line)[i] != NUL {
        assert Buffered(line)[i] == file[pos + i];
      }
    }
  }

  lemma {:induction false} OverrunFrom(file: seq<byte>, pos: nat, st: Ini, multiline: bool, handler: Handler)
    requires pos <= |file| && (pos == 0 || pos == |file| || file[pos - 1] == NEWLINE)
    ensures ParseLines(Lines(file, pos), st, multiline, handler).Overrun? <==> exists a: nat :: pos <= a && LongLineAt(file, a)
    decreases |file| - pos
  {
    hide StepText, RunsOff;
    if pos < |file| {
      RunsOffAt(file, pos);
      LinesStep(file, pos, st, multiline, handler);
      var e := LineEnd(file, pos);
      if !LongLineAt(file, pos) {
        OverrunFrom(file, e, StepText(st, CString(Buffered(file[pos..e])), multiline, handler), multiline, handler);
        forall a: nat | pos <= a && LongLineAt(file, a) ensures e <= a { }
      }
    }
  }

  lemma {:induction false} LinesStep(file: seq<byte>, pos: nat, st: Ini, multiline: bool, handler: Handler)
    requires pos < |file|
    ensures var e := LineEnd(file, pos);
            var chunk := file[pos..e];
            ParseLines(Lines(file, pos), st, multiline, handler)
            == if RunsOff(chunk) then Overrun(st)
               else ParseLines(Lines(file, e), StepText(st, CString(Buffered(chunk)), multiline, handler), multiline, handler)
  {
    hide StepText, LineEnd;
    var ls := Lines(file, pos);
    assert ls[1..] == Lines(file, LineEnd(file, pos));
  }

  /** The parser finds no NUL in its line buffer exactly for files with such a line. */
  lemma {:induction false} OverrunExactly(file: seq<byte>, multiline: bool, handler: Handler)
    ensures ParseLines(Lines(file, 0), START, multiline, handler).Overrun? <==> exists a: nat :: LongLineAt(file, a)
  {
    OverrunFrom(file, 0, START, multiline, handler);
  }

  /** 199 letters and the newline behind them are one byte too many. */
  lemma {:induction false} FullLineOverruns(multiline: bool, handler: Handler)
    ensures ParseLines(Lines(seq(199, _ => 97) + [NEWLINE], 0), START, multiline, handler).Overrun?
    ensures !ParseLines(Lines(seq(198, _ => 97) + [NEWLINE], 0), START, multiline, handler).Overrun?
  {
    var long: seq<byte>, short: seq<byte> := seq(199, _ => 97) + [NEWLINE], seq(198, _ => 97) + [NEWLINE];
    OverrunExactly(long, multiline, handler);
    OverrunExactly(short, multiline, handler);
    assert LongLineAt(long, 0);
  }

  // ---------------------------------------------------------------- the code, on the line buffer

  /** The string t, with its NUL, stands in a from position s on. */
  ghost predicate StringAt(a: seq<byte>, s: nat, t: seq<byte>) {
    s + |t| < |a| && a[s..s + |t|] == t && NUL !in t && a[s + |t|] == NUL
  }

  ghost predicate SameOutside(a: seq<byte>, b: seq<byte>, from: nat, to: nat) {
    |a| == |b| && forall i :: 0 <= i < |a| && !(from <= i < to) ==> a[i] == b[i]
  }

  lemma {:induction false} StringChars(a: seq<byte>, s: nat, t: seq<byte>)
    requires StringAt(a, s, t)
    ensures forall i :: 0 <= i < |t| ==> a[s + i] == t[i] && t[i] != NUL
    ensures forall i :: 0 <= i <= |t| ==> StringAt(a, s + i, t[i..])
  {
    forall i | 0 <= i < |t| ensures a[s + i] == t[i] { assert a[s..s + |t|][i] == t[i]; }
    forall i | 0 <= i <= |t| ensures StringAt(a, s + i, t[i..]) {
      assert a[s + i..s + |t|] == t[i..];
    }
  }

  /** A string is not touched by writes elsewhere, and is cut by a NUL. */
  lemma {:induction false} StringKept(a: seq<byte>, b: seq<byte>, s: nat, t: seq<byte>, from: nat, to: nat)
    requires StringAt(a, s, t) && SameOutside(a, b, from, to) && (to <= s || s + |t| < from)
    ensures StringAt(b, s, t)
  {
    assert b[s..s + |t|] == a[s..s + |t|];
  }

  lemma {:induction false} StringCut(a: seq<byte>, s: nat, t: seq<byte>, k: nat)
    requires StringAt(a, s, t) && k <= |t|
    ensures StringAt(a[s + k := NUL], s, t[..k])
  {
    StringChars(a, s, t);
    assert a[s + k := NUL][s..s + k] == t[..k];
  }

  method Strlen(line: array<byte>, s: nat, ghost t: seq<byte>) returns (n: nat)
    requires StringAt(line[..], s, t)
    ensures n == |t|
  {
    StringChars(line[..], s, t);
    n := 0;
    while line[s + n] != NUL
      invariant n <= |t|
      decreases |t| - n
    {
      n := n + 1;
    }
  }

  method Rstrip(line: array<byte>, s: nat, ghost t: seq<byte>)
    requires StringAt(line[..], s, t)
    modifies line
    ensures StringAt(line[..], s, RStrip(t))
    ensures SameOutside(old(line[..]), line[..], s + |RStrip(t)|, s + |t|)
  {
    var n := Strlen(line, s, t);
    ghost var first := line[..];
    assert t[..n] == t;
    while n > 0 && IsSpace(line[s + n - 1])
      invariant n <= |t| && StringAt(line[..], s, t[..n])
      invariant RStrip(t[..n]) == RStrip(t)
      invariant SameOutside(first, line[..], s + n, s + |t|)
    {
      StringChars(line[..], s, t[..n]);
      StringCut(line[..], s, t[..n], n - 1);
      assert t[..n][..n - 1] == t[..n - 1];
      assert t[..n][n - 1] == line[s + n - 1];
      n := n - 1;
      line[s + n] := NUL;
    }
    StringChars(line[..], s, t[..n]);
    assert n > 0 ==> t[..n][n - 1] == line[s + n - 1];
    assert RStrip(t[..n]) == t[..n];
  }

  method Lskip(line: array<byte>, s: nat, ghost t: seq<byte>) returns (p: nat)
    requires StringAt(line[..], s, t)
    ensures p == s + Leading(t) && StringAt(line[..], p, LSkip(t))
  {
    StringChars(line[..], s, t);
    p := s;
    assert t[0..] == t;
    while line[p] != NUL && IsSpace(line[p])
      invariant s <= p <= s + |t|
      invariant p - s + Leading(t[p - s..]) == Leading(t)
      decreases s + |t| - p
    {
      assert t[p - s..][1..] == t[p - s + 1..];
      p := p + 1;
    }
  }

  method FindCharOrComment(line: array<byte>, s: nat, c: byte, ghost t: seq<byte>) returns (p: nat)
    requires StringAt(line[..], s, t)
    ensures p == s + Find(t, c, 0) < line.Length && line[p] == CharAt(t, Find(t, c, 0))
  {
    StringChars(line[..], s, t);
    var wasSpace := false;
    p := s;
    while line[p] != NUL && line[p] != c && !(wasSpace && line[p] == SEMICOLON)
      invariant s <= p <= s + |t|
      invariant Find(t, c, p - s) == Find(t, c, 0)
      invariant wasSpace == (p > s && IsSpace(t[p - s - 1]))
      decreases s + |t| - p
    {
      wasSpace := IsSpace(line[p]);
      p := p + 1;
    }
  }

  /** The string at p, as the handler reads it. */
  method ReadString(line: array<byte>, p: nat, ghost t: seq<byte>) returns (r: seq<byte>)
    requires StringAt(line[..], p, t)
    ensures r == t
  {
    var n := Strlen(line, p, t);
    r := line[p..p + n];
    assert line[..][p..p + n] == r;
  }

  lemma {:induction false} FindEnds(t: seq<byte>)
    requires NUL !in t
    ensures CharAt(t, Find(t, NUL, 0)) == SEMICOLON || Find(t, NUL, 0) == |t|
  {
    var r := Find(t, NUL, 0);
    assert r < |t| ==> t[r] in t;
  }

  lemma {:induction false} OutsideJoins(a: seq<byte>, b: seq<byte>, c: seq<byte>, p: nat, f: nat, g: nat, n: nat)
    requires SameOutside(a, b, p, n) && SameOutside(b, c, f, g) && p <= f && g <= n
    ensures SameOutside(a, c, p, n)
  {
  }

  /** Cuts the trailing comment off and strips the rest. */
  method CutComment(line: array<byte>, v: nat, ghost t: seq<byte>)
    requires StringAt(line[..], v, t)
    modifies line
    ensures StringAt(line[..], v, RStrip(t[..Find(t, NUL, 0)]))
    ensures SameOutside(old(line[..]), line[..], v, line.Length)
  {
    hide Find, RStrip, StringAt;
    ghost var first := line[..];
    ghost var f := Find(t, NUL, 0);
    StringInside(line[..], v, t);
    var end := FindCharOrComment(line, v, NUL, t);
    FindEnds(t);
    if line[end] == SEMICOLON {
      StringCut(line[..], v, t, f);
      line[end] := NUL;
      assert line[..] == first[v + f := NUL];
    } else {
      assert t[..f] == t by { NotSemicolon(t); }
    }
    ghost var second := line[..];
    StringInside(second, v, t[..f]);
    Rstrip(line, v, t[..f]);
    OutsideJoins(first, second, line[..], v, v + |RStrip(t[..f])|, v + |t[..f]|, line.Length);
  }

  lemma {:induction false} NotSemicolon(t: seq<byte>)
    requires NUL !in t && CharAt(t, Find(t, NUL, 0)) != SEMICOLON
    ensures t[..Find(t, NUL, 0)] == t
  {
    FindEnds(t);
  }

  lemma {:induction false} StringInside(a: seq<byte>, s: nat, t: seq<byte>)
    requires StringAt(a, s, t)
    ensures s + |t| < |a| && NUL !in t
  {
  }

  /** Strips one pair of double quotes; r is the start of what is left. */
  method CutQuotes(line: array<byte>, v: nat, ghost t: seq<byte>) returns (r: nat)
    requires StringAt(line[..], v, t)
    modifies line
    ensures StringAt(line[..], r, Unquoted(t))
    ensures SameOutside(old(line[..]), line[..], v, line.Length)
  {
    r := v;
    var n := Strlen(line, v, t);
    ghost var first := line[..];
    StringChars(first, v, t);
    if line[v] == QUOTE && line[v + n - 1] == QUOTE {
      QuotesCut(first, v, t);
      line[v + n - 1] := NUL;
      assert line[..] == first[v + n - 1 := NUL];
      r := v + 1;
    }
  }

  lemma {:induction false} QuotesCut(a: seq<byte>, v: nat, t: seq<byte>)
    requires StringAt(a, v, t) && t != [] && t[0] == QUOTE && t[|t| - 1] == QUOTE
    ensures StringAt(a[v + |t| - 1 := NUL], v + 1, Unquoted(t))
  {
    var n := |t|;
    var b := a[v + n - 1 := NUL];
    StringCut(a, v, t, n - 1);
    if n > 1 {
      StringChars(b, v, t[..n - 1]);
      assert t[..n - 1][1..] == Unquoted(t);
    }
  }

  method ParseValue(line: array<byte>, p: nat, ghost rest: seq<byte>) returns (v: nat)
    requires StringAt(line[..], p, rest)
    modifies line
    ensures StringAt(line[..], v, ValueOf(rest))
    ensures SameOutside(old(line[..]), line[..], p, line.Length)
  {
    ghost var first := line[..];
    v := Lskip(line, p, rest);
    ghost var t := LSkip(rest);
    CutComment(line, v, t);
    v := CutQuotes(line, v, RStrip(t[..Find(t, NUL, 0)]));
  }

  /** A line that starts at start with string s, and is neither a comment nor a continuation. */
  method ParseStartInPlace(line: array<byte>, start: nat, ghost s: seq<byte>) returns (r: Line)
    requires StringAt(line[..], start, s)
    modifies line
    ensures r == ParseStart(s)
  {
    StringChars(line[..], start, s);
    if line[start] == NUL { return Ignored; }
    if line[start] == OPEN {
      ghost var inner := s[1..];
      var end := FindCharOrComment(line, start + 1, CLOSE, inner);
      if line[end] != CLOSE { return Malformed; }
      ghost var before := line[..];
      ghost var e := Find(inner, CLOSE, 0);
      StringCut(before, start + 1, inner, e);
      line[end] := NUL;
      assert line[..] == before[start + 1 + e := NUL];
      var name := ReadString(line, start + 1, inner[..e]);
      return Header(name);
    }
    r := ParsePairInPlace(line, start, s);
  }

  method ParsePairInPlace(line: array<byte>, start: nat, ghost s: seq<byte>) returns (r: Line)
    requires StringAt(line[..], start, s) && s != [] && s[0] != OPEN
    modifies line
    ensures r == ParseStart(s)
  {
    hide *;
    PairStart(s);
    var end := FindCharOrComment(line, start, EQUALS, s);
    if line[end] != EQUALS { end := FindCharOrComment(line, start, COLON, s); }
    ghost var e := Separator(s);
    assert end == start + e && line[end] == CharAt(s, e);
    if line[end] != EQUALS && line[end] != COLON { return Malformed; }
    var name, value := CutPair(line, start, end, s, e);
    r := Pair(name, value);
  }

  /** How a line that is no header comes apart. */
  lemma {:induction false} PairStart(s: seq<byte>)
    requires s != [] && s[0] != OPEN
    ensures var e := Separator(s);
            && e == (if CharAt(s, Find(s, EQUALS, 0)) == EQUALS then Find(s, EQUALS, 0) else Find(s, COLON, 0))
            && if CharAt(s, e) == EQUALS || CharAt(s, e) == COLON
               then e < |s| && ParseStart(s) == Pair(RStrip(s[..e]), ValueOf(s[e + 1..]))
               else ParseStart(s) == Malformed
  {
    hide RStrip, ValueOf, Find;
  }

  method CutPair(line: array<byte>, start: nat, end: nat, ghost s: seq<byte>, ghost e: nat)
    returns (n: seq<byte>, value: seq<byte>)
    requires StringAt(line[..], start, s) && e < |s| && end == start + e
    modifies line
    ensures n == RStrip(s[..e]) && value == ValueOf(s[e + 1..])
  {
    hide *;
    ghost var first := line[..];
    ghost var name, rest := RStrip(s[..e]), s[e + 1..];
    StringInside(first, start, s);
    SplitAt(first, start, s, e);
    line[end] := NUL;
    assert line[..] == first[start + e := NUL];
    ghost var second := line[..];
    Rstrip(line, start, s[..e]);
    ghost var third := line[..];
    StringKept(second, third, end + 1, rest, start + |name|, start + |s[..e]|);
    var v := ParseValue(line, end + 1, rest);
    StringKept(third, line[..], start, name, end + 1, line.Length);
    n := ReadString(line, start, name);
    value := ReadString(line, v, ValueOf(rest));
  }

  lemma {:induction false} SplitAt(a: seq<byte>, s: nat, t: seq<byte>, e: nat)
    requires StringAt(a, s, t) && e < |t|
    ensures var b := a[s + e := NUL];
            StringAt(b, s, t[..e]) && StringAt(b, s + e + 1, t[e + 1..])
  {
    StringCut(a, s, t, e);
    StringChars(a, s, t);
    StringKept(a, a[s + e := NUL], s + e + 1, t[e + 1..], s + e, s + e + 1);
  }

  /** The body of the loop in ini_parse, up to its effect on the variables. */
  method ParseLineInPlace(line: array<byte>, goesOn: bool, ghost text: seq<byte>) returns (r: Line)
    requires StringAt(line[..], 0, text)
    modifies line
    ensures r == ParseLine(text, goesOn)
  {
    hide RStrip, Leading, ParseStart;
    Rstrip(line, 0, text);
    ghost var t := RStrip(text);
    var start := Lskip(line, 0, t);
    ghost var s := LSkip(t);
    StringChars(line[..], start, s);
    if line[start] == SEMICOLON || line[start] == HASH { return Ignored; }
    if goesOn && line[start] != NUL && start > 0 {
      var more := ReadString(line, start, s);
      return Continued(more);
    }
    r := ParseStartInPlace(line, start, s);
  }

  /** memgets: copies the next line of the file and moves on; false at the end of the file. */
  method Memgets(line: array<byte>, file: seq<byte>, pos: nat) returns (more: bool, next: nat)
    requires line.Length == MAX_LINE && pos <= |file|
    modifies line
    ensures more == (pos < |file|)
    ensures more ==> pos < next <= |file| && next == LineEnd(file, pos)
    ensures more ==> var chunk := file[pos..next];
                     && line[..|Buffered(chunk)|] == Buffered(chunk)
                     && (|chunk| < MAX_LINE ==> line[|chunk|] == NUL)
    ensures more ==> (NUL !in line[..] <==> RunsOff(file[pos..next]))
    ensures !more ==> next == pos
  {
    var end := pos;
    while end < |file| && file[end] != NEWLINE
      invariant pos <= end <= |file| && LineEnd(file, end) == LineEnd(file, pos)
    {
      end := end + 1;
    }
    if end == |file| && pos == |file| { return false, pos; }
    next := if end < |file| then end + 1 else end;
    var len := if next - pos < MAX_LINE then next - pos else MAX_LINE;
    forall i | 0 <= i < len { line[i] := file[pos + i]; }
    if len < MAX_LINE { line[len] := NUL; }
    ghost var chunk := file[pos..next];
    assert line[..len] == chunk[..len] by {
      forall i | 0 <= i < len ensures line[i] == chunk[i] { }
    }
    assert line[..len] == Buffered(chunk);
    BufferEnds(line[..], chunk);
    more := true;
  }

  /** The buffer behind memgets holds a NUL unless the line fills it without one. */
  lemma {:induction false} BufferEnds(a: seq<byte>, chunk: seq<byte>)
    requires |a| == MAX_LINE && a[..|Buffered(chunk)|] == Buffered(chunk)
    requires |chunk| < MAX_LINE ==> a[|chunk|] == NUL
    ensures NUL !in a <==> RunsOff(chunk)
  {
    if |chunk| < MAX_LINE {
      assert a[|chunk|] in a;
    } else {
      assert a[..MAX_LINE] == a;
    }
  }

  /** strlen on the line buffer: whether it finds a NUL before the end of the array. */
  method HoldsNul(line: array<byte>) returns (found: bool)
    ensures found <==> NUL in line[..]
  {
    var n := 0;
    while n < line.Length && line[n] != NUL
      invariant n <= line.Length && NUL !in line[..n]
    {
      n := n + 1;
    }
    found := n < line.Length;
    if found {
      assert line[n] in line[..];
    } else {
      assert line[..n] == line[..];
    }
  }

  lemma {:induction false} BufferString(a: seq<byte>, chunk: seq<byte>)
    requires |a| == MAX_LINE && a[..|Buffered(chunk)|] == Buffered(chunk)
    requires |chunk| < MAX_LINE ==> a[|chunk|] == NUL
    requires !RunsOff(chunk)
    ensures StringAt(a, 0, CString(Buffered(chunk)))
  {
    var b := Buffered(chunk);
    var t := CString(b);
    assert a[..|t|] == b[..|t|] == t;
    if |t| < |b| {
      assert a[|t|] == b[|t|];
    } else {
      assert t == b;
    }
  }

  /** ini_parse */
  method IniParse(file: seq<byte>, multiline: bool, handler: Handler) returns (r: Outcome)
    ensures r == ParseLines(Lines(file, 0), START, multiline, handler)
  {
    hide ParseLine, Effect, CString, LineEnd;
    var line := new byte[MAX_LINE];
    var st, pos: nat := START, 0;
    while true
      invariant pos <= |file|
      invariant ParseLines(Lines(file, pos), st, multiline, handler) == ParseLines(Lines(file, 0), START, multiline, handler)
      decreases |file| - pos
    {
      var more, next := Memgets(line, file, pos);
      if !more { return Returned(st); }
      ghost var chunk := file[pos..next];
      LinesStep(file, pos, st, multiline, handler);
      var ends := HoldsNul(line);
      if !ends { return Overrun(st); }
      BufferString(line[..], chunk);
      var l := ParseLineInPlace(line, multiline && st.prevName != [], CString(Buffered(chunk)));
      st := Effect(st.(lineno := st.lineno + 1), l, handler);
      pos := next;
    }
  }
}

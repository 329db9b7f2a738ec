/**
 The log buffer: logbuff_printk tags each new line in place and feeds a ring buffer kept in
 one of two layouts; "log show" reads it back.
 */
module LogBuffer {

  const LEN := 16384                  // LOGBUFF_LEN
  const WORD := 0x1_0000_0000         // unsigned long counters
  const DEFAULT_LEVEL := 4            // default_message_loglevel

  // ---------------------------------------------------------------- what is logged

  predicate HasTag(s: string) {
    |s| >= 3 && s[0] == '<' && '0' <= s[1] <= '7' && s[2] == '>'
  }

  /** Characters up to and including the first newline. */
  function LineLen(s: string): (n: nat)
    ensures n <= |s| && (s != "" ==> n > 0)
    ensures forall i :: 0 <= i < n - 1 ==> s[i] != '\n'
    ensures n == |s| || s[n - 1] == '\n'
  {
    if s == "" then 0 else if s[0] == '\n' then 1 else 1 + LineLen(s[1..])
  }

  /** Text sent to the ring, and the level in force afterwards (-1 at the start of a line). */
  datatype Logged = Logged(text: string, level: int)

  function LevelOf(s: string): int {
    if HasTag(s) then s[1] as int - '0' as int else DEFAULT_LEVEL
  }

  function Prefix(level: int, s: string): string {
    if level < 0 && !HasTag(s) then "<4>" else ""
  }

  /** The level after the first line of s. */
  function NextLevel(level: int, s: string): int
    requires s != ""
  {
    if s[LineLen(s) - 1] == '\n' then -1 else if level < 0 then LevelOf(s) else level
  }

  /** What one message adds to the log. */
  function Emit(level: int, s: string): Logged
    decreases |s|
  {
    if s == "" then Logged("", level)
    else
      var n := LineLen(s);
      var line := Prefix(level, s) + s[..n];
      if s[n - 1] == '\n' then
        var rest := Emit(-1, s[n..]);
        Logged(line + rest.text, rest.level)
      else Logged(line, NextLevel(level, s))
  }

  /** What a history of messages adds, the level carried from call to call. */
  function EmitAll(level: int, msgs: seq<string>): Logged {
    if msgs == [] then Logged("", level)
    else
      var before := EmitAll(level, msgs[..|msgs| - 1]);
      var last := Emit(before.level, msgs[|msgs| - 1]);
      Logged(before.text + last.text, last.level)
  }

  /** Every line of t that begins inside t carries a tag; atStart says t begins a line. */
  ghost predicate Tagged(atStart: bool, t: string) {
    forall i :: 0 <= i < |t| && (if i == 0 then atStart else t[i - 1] == '\n') ==> HasTag(t[i..])
  }

  /** Whether a line is open behind t. */
  predicate FreshAfter(atStart: bool, t: string) {
    if t == "" then atStart else t[|t| - 1] == '\n'
  }

  lemma {:induction false} TaggedConcat(atStart: bool, a: string, b: string)
    requires Tagged(atStart, a) && Tagged(FreshAfter(atStart, a), b)
    ensures Tagged(atStart, a + b) && FreshAfter(atStart, a + b) == FreshAfter(FreshAfter(atStart, a), b)
  {
    var t := a + b;
    forall i | 0 <= i < |t| && (if i == 0 then atStart else t[i - 1] == '\n') ensures HasTag(t[i..]) {
      if i < |a| {
        assert HasTag(a[i..]);
        assert t[i..] == a[i..] + b;
      } else {
        assert HasTag(b[i - |a|..]);
        assert t[i..] == b[i - |a|..];
      }
    }
  }

  lemma {:induction false} LineIsTagged(level: int, s: string)
    requires s != "" && -1 <= level
    ensures var line := Prefix(level, s) + s[..LineLen(s)];
            Tagged(level < 0, line) && FreshAfter(level < 0, line) == (s[LineLen(s) - 1] == '\n')
  {
    var n := LineLen(s);
    var line := Prefix(level, s) + s[..n];
    if HasTag(s) { assert n >= 3; }
    forall i | 0 <= i < |line| && (if i == 0 then level < 0 else line[i - 1] == '\n') ensures HasTag(line[i..]) {
      assert i == 0;
      assert line[0..] == line;
    }
  }

  /** In everything one message logs, each new line starts with a tag, and the level is -1
      exactly when the next character starts a line. */
  lemma {:induction false} EmitIsTagged(level: int, s: string)
    requires -1 <= level
    ensures var r := Emit(level, s);
            && Tagged(level < 0, r.text) && -1 <= r.level
            && (r.level < 0) == FreshAfter(level < 0, r.text)
    decreases |s|
  {
    if s != "" {
      var n := LineLen(s);
      var line := Prefix(level, s) + s[..n];
      LineIsTagged(level, s);
      if s[n - 1] == '\n' {
        EmitIsTagged(-1, s[n..]);
        TaggedConcat(level < 0, line, Emit(-1, s[n..]).text);
      }
    }
  }

  /** The same for every history, from the state the log starts in. */
  lemma {:induction false} HistoryIsTagged(msgs: seq<string>)
    ensures var r := EmitAll(-1, msgs);
            && Tagged(true, r.text) && -1 <= r.level
            && (r.level < 0) == FreshAfter(true, r.text)
  {
    if msgs != [] {
      var before := EmitAll(-1, msgs[..|msgs| - 1]);
      HistoryIsTagged(msgs[..|msgs| - 1]);
      EmitIsTagged(before.level, msgs[|msgs| - 1]);
      TaggedConcat(true, before.text, Emit(before.level, msgs[|msgs| - 1]).text);
    }
  }

  function Lines(s: string): seq<string>
    decreases |s|
  {
    if s == "" then [] else [s[..LineLen(s)]] + Lines(s[LineLen(s)..])
  }

  function TagLine(line: string): string {
    if HasTag(line) then line else "<4>" + line
  }

  function JoinTagged(lines: seq<string>): string {
    if lines == [] then "" else TagLine(lines[0]) + JoinTagged(lines[1..])
  }

  /** A text that begins at a line start, or goes on with an open line: its lines, tagged where they have no tag. */
  function Linewise(level: int, s: string): string {
    if level < 0 then JoinTagged(Lines(s)) else s[..LineLen(s)] + JoinTagged(Lines(s[LineLen(s)..]))
  }

  lemma {:induction false} EmitFromStart(s: string)
    ensures Emit(-1, s).text == JoinTagged(Lines(s))
    decreases |s|
  {
    if s != "" {
      var n := LineLen(s);
      if HasTag(s) { assert n >= 3; }
      assert HasTag(s) == HasTag(s[..n]);
      assert Prefix(-1, s) + s[..n] == TagLine(s[..n]);
      EmitFromStart(s[n..]);
      assert Lines(s)[1..] == Lines(s[n..]);
      if s[n - 1] != '\n' {
        assert s[n..] == "";
        assert TagLine(s[..n]) + "" == TagLine(s[..n]);
      }
    }
  }

  /** Nothing is dropped, and a tag is added only to a line that begins in the message and has none. */
  lemma {:induction false} EmitIsLinewise(level: int, s: string)
    ensures Emit(level, s).text == Linewise(level, s)
  {
    hide Lines, JoinTagged;
    if level < 0 {
      EmitBySign(level, -1, s);
      EmitFromStart(s);
    } else if s == "" {
      NoLines();
    } else {
      EmitFromStart(s[LineLen(s)..]);
      if s[LineLen(s) - 1] != '\n' { NoLines(); }
    }
  }

  lemma {:induction false} NoLines()
    ensures JoinTagged(Lines("")) == ""
  {
  }

  /** Only whether a line is open matters for the text. */
  lemma {:induction false} EmitBySign(level: int, level': int, s: string)
    requires level < 0 <==> level' < 0
    ensures Emit(level, s).text == Emit(level', s).text
    ensures Emit(level, s).level < 0 <==> Emit(level', s).level < 0
  {
  }

  // ---------------------------------------------------------------- line by line

  /** A tag in front of a line does not move its end. */
  lemma {:induction false} PrefixedLine(level: int, s: string)
    requires s != ""
    ensures var t := Prefix(level, s) + s;
            && LineLen(t) == |Prefix(level, s)| + LineLen(s)
            && t[..LineLen(t)] == Prefix(level, s) + s[..LineLen(s)]
            && t[LineLen(t) - 1] == s[LineLen(s) - 1]
            && (LineLen(s) == |s| || s[LineLen(s) - 1] == '\n')
  {
    LineLenIs(Prefix(level, s) + s, |Prefix(level, s)| + LineLen(s));
  }

  /** With left still to be printed, the log ends up as full. */
  ghost predicate Completes(stream: string, level: int, left: string, full: Logged) {
    Logged(stream + Emit(level, left).text, Emit(level, left).level) == full
  }

  lemma {:induction false} CompletesInitially(stream: string, level: int, s: string)
    ensures Completes(stream, level, s, Logged(stream + Emit(level, s).text, Emit(level, s).level))
  {
  }

  lemma {:induction false} CompletesAfterLine(stream: string, level: int, s: string, full: Logged)
    requires s != "" && Completes(stream, level, s, full)
    ensures 0 < LineLen(s) <= |s|
    ensures Completes(stream + (Prefix(level, s) + s[..LineLen(s)]), NextLevel(level, s), s[LineLen(s)..], full)
  {
    EmitStep(level, s);
    hide Emit, Prefix, NextLevel;
    var n := LineLen(s);
    var line, rest := Prefix(level, s) + s[..n], Emit(NextLevel(level, s), s[n..]).text;
    assert stream + (line + rest) == (stream + line) + rest;
  }

  lemma {:induction false} CompletesFinally(stream: string, level: int, full: Logged)
    requires Completes(stream, level, "", full)
    ensures full == Logged(stream, level)
  {
    assert stream + "" == stream;
  }

  lemma {:induction false} NextLevelIs(level: int, s: string)
    requires s != ""
    ensures NextLevel(level, s) == if s[LineLen(s) - 1] == '\n' then -1 else if level < 0 then LevelOf(s) else level
    ensures 0 < LineLen(s) <= |s|
  {
  }

  /** Emit, one line at a time. */
  lemma {:induction false} EmitStep(level: int, s: string)
    requires s != ""
    ensures var n := LineLen(s);
            var next := NextLevel(level, s);
            Emit(level, s) == Logged(Prefix(level, s) + s[..n] + Emit(next, s[n..]).text, Emit(next, s[n..]).level)
  {
    var n := LineLen(s);
    if s[n - 1] != '\n' {
      assert s[n..] == "";
      assert Prefix(level, s) + s[..n] + "" == Prefix(level, s) + s[..n];
    }
  }

  lemma {:induction false} LineLenIs(s: string, n: nat)
    requires 0 < n <= |s| && (forall i :: 0 <= i < n - 1 ==> s[i] != '\n')
    requires n == |s| || s[n - 1] == '\n'
    ensures LineLen(s) == n
  {
  }

  // ---------------------------------------------------------------- ring arithmetic

  /** x & LOGBUFF_MASK */
  function Slot(x: nat): (r: nat)
    ensures r < LEN
  {
    x % LEN
  }

  /** Arithmetic on unsigned long. */
  function Wrap(x: nat): nat { x % WORD }

  function Diff(x: nat, y: nat): nat { (x - y) % WORD }

  /** Counters wrap at 2^32, which the ring length divides. */
  lemma {:induction false} SlotOfWrap(x: nat, i: nat)
    ensures Slot(Wrap(x) + i) == Slot(x + i)
  {
    assert x == x / WORD * WORD + x % WORD;
    assert x + i == x / WORD * (WORD / LEN) * LEN + (x % WORD + i);
    SlotIsPeriodic(x % WORD + i, x / WORD * (WORD / LEN));
  }

  lemma {:induction false} SlotIsPeriodic(x: nat, k: nat)
    ensures Slot(k * LEN + x) == Slot(x)
  {
    if k != 0 { SlotIsPeriodic(x, k - 1); }
  }

  lemma {:induction false} SlotsDiffer(i: nat, j: nat)
    requires i < j < i + LEN
    ensures Slot(i) != Slot(j)
  {
  }

  lemma {:induction false} WrapNext(x: nat)
    ensures Wrap(Wrap(x) + 1) == Wrap(x + 1)
  {
  }

  lemma {:induction false} WrapDiff(x: nat, y: nat)
    requires x <= y < x + WORD
    ensures Diff(Wrap(y), Wrap(x)) == y - x
  {
  }

  // ---------------------------------------------------------------- the ring

  /** The last characters of the stream that the ring has room for. */
  function Kept(stream: string): string {
    if |stream| <= LEN then stream else stream[|stream| - LEN..]
  }

  /** The ring holds the stream from position base on. */
  ghost predicate RingHolds(ring: seq<char>, stream: string, base: nat) {
    |ring| == LEN && forall j: nat :: base <= j < |stream| ==> ring[Slot(j)] == stream[j]
  }

  /** One character more, when it does not overtake the base. */
  lemma {:induction false} RingPut(ring: seq<char>, stream: string, base: nat, base': nat, c: char)
    requires RingHolds(ring, stream, base) && base <= base' && |stream| < base' + LEN
    ensures RingHolds(ring[Slot(|stream|) := c], stream + [c], base')
  {
    forall j: nat | base' <= j < |stream| ensures Slot(j) != Slot(|stream|) {
      SlotsDiffer(j, |stream|);
    }
    hide Slot;
  }

  /** A tag at p can be read off the buffer, since the NUL ends every comparison in time. */
  lemma {:induction false} TagInBuffer(b: seq<char>, p: nat, bufEnd: nat)
    requires |b| == 1024 && p < bufEnd <= 1023 && b[bufEnd] == '\0'
    ensures HasTag(b[p..bufEnd]) <==> b[p] == '<' && '0' <= b[p + 1] <= '7' && p + 2 < 1024 && b[p + 2] == '>'
  {
    var s := b[p..bufEnd];
    if HasTag(s) {
      assert s[0] == b[p] && s[1] == b[p + 1] && s[2] == b[p + 2];
    } else if p + 2 < bufEnd {
      assert s[0] == b[p] && s[1] == b[p + 1] && s[2] == b[p + 2];
    }
  }

  /** The counters when character n is put behind those from base on. */
  lemma {:induction false} PutFacts(n: nat, base: nat)
    requires base <= n <= base + LEN
    ensures Slot(Wrap(n)) == Slot(n) && Slot(Wrap(base) + (n - base)) == Slot(n)
    ensures Wrap(Wrap(n) + 1) == Wrap(n + 1) && Wrap(Wrap(base) + 1) == Wrap(base + 1)
    ensures Diff(Wrap(n + 1), Wrap(base)) == n + 1 - base
  {
    SlotOfWrap(n, 0);
    SlotOfWrap(base, n - base);
    WrapNext(base);
    WrapNext(n);
    WrapDiff(base, n + 1);
  }

  class Log {
    const version: int                 // log_version
    const lbuf: array<char>
    var start: nat
    var size: nat                      // v1
    var end: nat                       // v2
    const buf: array<char>             // static scratch buffer of logbuff_printk
    var msgLevel: int
    ghost var stream: string           // everything logged since the last reset

    constructor (version: int)
      ensures Valid() && stream == "" && msgLevel == -1 && this.version == version
      ensures fresh(lbuf) && fresh(buf)
    {
      this.version := version;
      lbuf := new char[LEN];
      buf := new char[1024];
      start, size, end, msgLevel, stream := 0, 0, 0, -1, "";
    }

    /** The first stream position still in the ring. */
    ghost function Base(): nat
      reads this
    {
      if |stream| <= LEN then 0 else |stream| - LEN
    }

    ghost predicate Ring()
      reads this, lbuf
    {
      && lbuf.Length == LEN
      && start == Wrap(Base())
      && (version == 2 ==> end == Wrap(|stream|))
      && (version != 2 ==> size == |stream| - Base())
      && RingHolds(lbuf[..], stream, Base())
    }

    ghost predicate Valid()
      reads this, lbuf
    {
      Ring() && buf.Length == 1024 && buf != lbuf && -1 <= msgLevel
    }

    /** logbuff_reset; the level of a line in progress is not touched. */
    method Reset()
      requires Valid()
      modifies this`start, this`size, this`end, this`stream
      ensures Valid() && stream == ""
    {
      start, size, end, stream := 0, 0, 0, "";
    }

    /** One character into the ring, in the layout of the log version. */
    method Put(c: char)
      requires Valid()
      modifies this`start, this`size, this`end, this`stream, lbuf
      ensures Valid() && stream == old(stream) + [c]
    {
      hide Slot, Wrap, Diff, RingHolds;
      ghost var n, base := |stream|, Base();
      RingPut(lbuf[..], stream, base, if n < LEN then 0 else n + 1 - LEN, c);
      PutFacts(n, base);
      if version == 2 {
        PutV2(c);
      } else {
        PutV1(c);
      }
    }

    /** The layout with start and end. */
    method PutV2(c: char)
      requires version == 2 && lbuf.Length == LEN
      modifies this`start, this`end, this`stream, lbuf
      ensures lbuf[..] == old(lbuf[..])[Slot(old(end)) := c] && stream == old(stream) + [c]
      ensures end == Wrap(old(end) + 1)
      ensures start == if Diff(end, old(start)) > LEN then Wrap(old(start) + 1) else old(start)
    {
      lbuf[Slot(end)] := c;
      end := Wrap(end + 1);
      if Diff(end, start) > LEN {
        start := Wrap(start + 1);
      }
      stream := stream + [c];
    }

    /** The layout with start and size. */
    method PutV1(c: char)
      requires version != 2 && lbuf.Length == LEN
      modifies this`start, this`size, this`stream, lbuf
      ensures lbuf[..] == old(lbuf[..])[Slot(old(start) + old(size)) := c] && stream == old(stream) + [c]
      ensures size == if old(size) < LEN then old(size) + 1 else old(size)
      ensures start == if old(size) < LEN then old(start) else Wrap(old(start) + 1)
    {
      lbuf[Slot(start + size)] := c;
      if size < LEN {
        size := size + 1;
      } else {
        start := Wrap(start + 1);
      }
      stream := stream + [c];
    }

    /** The inner loop of logbuff_printk: to the newline, where p stops, or to the end. */
    method PutLine(p0: nat, bufEnd: nat) returns (p: nat, lineFeed: bool)
      requires Valid() && p0 < bufEnd <= 1023
      modifies this`start, this`size, this`end, this`stream, lbuf
      ensures Valid()
      ensures var s := buf[p0..bufEnd];
              && stream == old(stream) + s[..LineLen(s)]
              && lineFeed == (s[LineLen(s) - 1] == '\n')
              && p == (if lineFeed then p0 + LineLen(s) - 1 else bufEnd)
    {
      ghost var s := buf[p0..bufEnd];
      p, lineFeed := p0, false;
      hide Ring, LineLen;
      while p < bufEnd
        invariant p0 <= p <= bufEnd && Valid() && !lineFeed && buf[p0..bufEnd] == s
        invariant stream == old(stream) + s[..p - p0]
        invariant forall i :: 0 <= i < p - p0 ==> s[i] != '\n'
      {
        var c := buf[p];
        assert c == s[p - p0];
        Put(c);
        AppendNext(old(stream), s, p - p0);
        if c == '\n' {
          lineFeed := true;
          LineLenIs(s, p - p0 + 1);
          return;
        }
        p := p + 1;
      }
      LineLenIs(s, |s|);
    }

    lemma {:induction false} AppendNext(before: string, s: string, k: nat)
      requires k < |s|
      ensures before + s[..k] + [s[k]] == before + s[..k + 1]
    {
    }

    /** Write the default tag over the three bytes before p, or find one at p. */
    method TagInPlace(p0: nat, bufEnd: nat) returns (p: nat)
      requires Valid() && 3 <= p0 < bufEnd <= 1023 && msgLevel < 0
      requires buf[bufEnd] == '\0' && forall i :: p0 <= i < bufEnd ==> buf[i] != '\0'
      modifies buf, this`msgLevel
      ensures Valid() && msgLevel == LevelOf(old(buf[p0..bufEnd])) && p <= p0
      ensures buf[p..bufEnd] == Prefix(-1, old(buf[p0..bufEnd])) + old(buf[p0..bufEnd])
      ensures forall i :: p0 <= i < 1024 ==> buf[i] == old(buf[i])
    {
      hide RingHolds, HasTag;
      ghost var s := buf[p0..bufEnd];
      p := p0;
      TagInBuffer(buf[..], p, bufEnd);
      assert buf[..][p0..bufEnd] == s;
      if buf[p] != '<' || buf[p + 1] < '0' || buf[p + 1] > '7' || buf[p + 2] != '>' {
        p := p - 3;
        buf[p] := '<';
        buf[p + 1] := '0' + DEFAULT_LEVEL as char;
        buf[p + 2] := '>';
        assert buf[p..bufEnd] == "<4>" + s;
      } else {
        assert s[1] == buf[p + 1];
      }
      msgLevel := buf[p + 1] as int - '0' as int;
    }

    /** buf holds s from p up to its NUL at bufEnd. */
    ghost predicate Unread(p: nat, bufEnd: nat, s: string)
      reads buf
    {
      && buf.Length == 1024 && p <= bufEnd <= 1023 && buf[p..bufEnd] == s
      && buf[bufEnd] == '\0' && '\0' !in s
    }

    /** The start of a turn: a fresh line gets its level, and a tag if it has none. */
    method StartLine(p0: nat, bufEnd: nat, ghost s: string) returns (p: nat)
      requires Valid() && 3 <= p0 < bufEnd && Unread(p0, bufEnd, s)
      modifies this`msgLevel, buf
      ensures Valid() && p <= p0 && buf[p..bufEnd] == Prefix(old(msgLevel), s) + s
      ensures msgLevel == (if old(msgLevel) < 0 then LevelOf(s) else old(msgLevel))
      ensures Unread(p0, bufEnd, s)
    {
      hide Ring, HasTag;
      p := p0;
      if msgLevel < 0 {
        assert forall i :: p0 <= i < bufEnd ==> buf[i] == buf[p0..bufEnd][i - p0];
        p := TagInPlace(p, bufEnd);
      } else {
        assert Prefix(msgLevel, s) + s == s;
      }
    }

    /** One turn of the outer loop: the rest of the text from p, up to its first newline. */
    method PrintLine(p0: nat, bufEnd: nat, ghost s: string) returns (p: nat)
      requires Valid() && 3 <= p0 < bufEnd && Unread(p0, bufEnd, s)
      modifies this`start, this`size, this`end, this`stream, this`msgLevel, lbuf, buf
      ensures Valid()
      ensures stream == old(stream) + (Prefix(old(msgLevel), s) + s[..LineLen(s)])
      ensures msgLevel == NextLevel(old(msgLevel), s)
      ensures if s[LineLen(s) - 1] == '\n' then p == p0 + LineLen(s) && Unread(p, bufEnd, s[LineLen(s)..])
              else p == bufEnd + 1 && LineLen(s) == |s|
    {
      hide *;
      UnreadLength(p0, bufEnd, s);
      PrefixedLine(msgLevel, s);
      NextLevelIs(msgLevel, s);
      p := StartLine(p0, bufEnd, s);
      UnreadMoves(p0, bufEnd, s, LineLen(s));
      var lineFeed;
      p, lineFeed := PutLine(p, bufEnd);
      FinishLine(lineFeed);
      p := p + 1;
    }

    method FinishLine(lineFeed: bool)
      requires Valid()
      modifies this`msgLevel
      ensures Valid() && msgLevel == if lineFeed then -1 else old(msgLevel)
    {
      if lineFeed { msgLevel := -1; }
    }

    lemma {:induction false} UnreadLength(p0: nat, bufEnd: nat, s: string)
      requires Unread(p0, bufEnd, s)
      ensures |s| == bufEnd - p0 && bufEnd <= 1023
    {
    }

    lemma {:induction false} UnreadMoves(p0: nat, bufEnd: nat, s: string, n: nat)
      requires Unread(p0, bufEnd, s) && n <= |s|
      ensures Unread(p0 + n, bufEnd, s[n..])
    {
      assert buf[p0 + n..bufEnd] == buf[p0..bufEnd][n..];
    }

    /** logbuff_printk; fits is false when the message runs past the end of the scratch buffer. */
    method Printk(line: string) returns (fits: bool, i: nat)
      requires Valid() && '\0' !in line
      modifies this`start, this`size, this`end, this`stream, this`msgLevel, lbuf, buf
      ensures Valid() && i == |line|
      ensures fits <==> |line| <= 1020
      ensures fits ==> stream == old(stream) + Emit(old(msgLevel), line).text
      ensures fits ==> msgLevel == Emit(old(msgLevel), line).level
    {
      i := |line|;
      fits := CopyIn(line);
      if fits { PrintBuffered(line); }
    }

    /** The loop over the lines in the scratch buffer. */
    method PrintBuffered(line: string)
      requires Valid() && Unread(3, 3 + |line|, line)
      modifies this`start, this`size, this`end, this`stream, this`msgLevel, lbuf, buf
      ensures Valid()
      ensures stream == old(stream) + Emit(old(msgLevel), line).text
      ensures msgLevel == Emit(old(msgLevel), line).level
    {
      var bufEnd, p: nat := 3 + |line|, 3;
      ghost var full := Logged(stream + Emit(msgLevel, line).text, Emit(msgLevel, line).level);
      ghost var left := line;
      hide *;
      CompletesInitially(stream, msgLevel, line);
      while p < bufEnd
        invariant 3 <= p && Valid() && Completes(stream, msgLevel, left, full)
        invariant if p <= bufEnd then Unread(p, bufEnd, left) else left == ""
        decreases |left|
      {
        UnreadLength(p, bufEnd, left);
        CompletesAfterLine(stream, msgLevel, left, full);
        ghost var n := LineLen(left);
        p := PrintLine(p, bufEnd, left);
        left := left[n..];
      }
      if p <= bufEnd { UnreadLength(p, bufEnd, left); }
      CompletesFinally(stream, msgLevel, full);
    }

    /** strcpy(buf + 3, line), up to the byte that would be stored past the end of buf. */
    method CopyIn(line: string) returns (fits: bool)
      requires Valid() && '\0' !in line
      modifies buf
      ensures Valid() && (fits <==> |line| <= 1020)
      ensures fits ==> Unread(3, 3 + |line|, line)
    {
      var k := 0;
      while k < |line|
        invariant k <= |line| && 3 + k <= 1024 && buf[3..3 + k] == line[..k]
      {
        if 3 + k == buf.Length { return false; }
        buf[3 + k] := line[k];
        k := k + 1;
      }
      if 3 + k == buf.Length { return false; }
      buf[3 + k] := '\0';
      assert buf[3..3 + k] == line[..k];
      fits := true;
    }

    /** log show */
    method Show() returns (text: string)
      requires Valid()
      ensures text == Kept(stream)
    {
      ghost var base := Base();
      WrapDiff(base, |stream|);
      hide Slot, Wrap, Diff;
      var n := if version == 2 then Diff(end, start) else size;
      if n > LEN { n := LEN; }
      text := "";
      var i := 0;
      while i < n
        invariant i <= n && text == stream[base..base + i]
      {
        SlotOfWrap(base, i);
        text := text + [lbuf[Slot(start + i)]];
        i := i + 1;
      }
    }
  }

  /** A history of messages followed by "log show": the text does not depend on the layout. */
  method ShowHistory(version: int, msgs: seq<string>) returns (text: string)
    requires forall i :: 0 <= i < |msgs| ==> |msgs[i]| <= 1020 && '\0' !in msgs[i]
    ensures text == Kept(EmitAll(-1, msgs).text)
  {
    var log := new Log(version);
    var i := 0;
    assert msgs[..0] == [];
    while i < |msgs|
      invariant i <= |msgs| && log.Valid() && fresh(log) && fresh(log.lbuf) && fresh(log.buf)
      invariant Logged(log.stream, log.msgLevel) == EmitAll(-1, msgs[..i])
    {
      hide Emit;
      assert msgs[..i + 1][..i] == msgs[..i];
      var fits, n := log.Printk(msgs[i]);
      i := i + 1;
    }
    assert msgs[..i] == msgs;
    text := log.Show();
  }
}

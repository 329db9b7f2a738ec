/**
 Histories of log messages: when the log of several calls is the log of their joint text.  The tag
 of a line is looked for in the current message only, so a tag that two messages share is missed.
 */
module LogHistory {
  import opened LogBuffer

  function Concat(msgs: seq<string>): string {
    if msgs == [] then "" else Concat(msgs[..|msgs| - 1]) + msgs[|msgs| - 1]
  }

  /** A tag at position t of a text, standing at the start of a line. */
  predicate TagAt(text: string, t: nat) {
    t + 3 <= |text| && (t == 0 || text[t - 1] == '\n') && HasTag(text[t..])
  }

  /** Position b lies inside such a tag. */
  ghost predicate InsideTag(text: string, b: nat) {
    exists t: nat :: t < b < t + 3 && TagAt(text, t)
  }

  /** Some message begins inside a tag that stands at a line start of the joint text. */
  ghost predicate CutsTag(msgs: seq<string>) {
    exists k: nat :: k < |msgs| && InsideTag(Concat(msgs), |Concat(msgs[..k])|)
  }

  /** A tag given in two messages is not seen: the line gets a second one. */
  lemma {:induction false} SplitTagIsDoubled()
    ensures EmitAll(-1, ["<", "3>x\n"]).text == "<4><3>x\n"
    ensures Emit(-1, "<3>x\n").text == "<3>x\n"
    ensures CutsTag(["<", "3>x\n"])
  {
    hide Emit, EmitAll, Concat, CutsTag, LineLen;
    var a, b, c := "<", "3>x\n", "<3>x\n";
    LineLenIs(a, 1);
    OneLineLogs(-1, a);
    OneLineLogs(DEFAULT_LEVEL, b);
    OneLineLogs(-1, c);
    TwoMessages(-1, a, b);
    assert a + b == c && c[0..] == c;
    assert TagAt(c, 0);
  }

  lemma {:induction false} OneLineLogs(level: int, s: string)
    requires s != "" && forall i :: 0 <= i < |s| - 1 ==> s[i] != '\n'
    ensures Emit(level, s) == Logged(Prefix(level, s) + s, NextLevel(level, s))
  {
    LineLenIs(s, |s|);
    assert s[..|s|] == s && s[|s|..] == "";
  }

  lemma {:induction false} TwoMessages(level: int, a: string, b: string)
    ensures EmitAll(level, [a, b]).text == Emit(level, a).text + Emit(Emit(level, a).level, b).text
    ensures InsideTag(a + b, |a|) ==> CutsTag([a, b])
  {
    hide Emit, InsideTag;
    var msgs := [a, b];
    assert msgs[..1] == [a] && [a][..0] == [];
    var r := Emit(level, a);
    assert "" + r.text == r.text && "" + a == a;
    assert EmitAll(level, []) == Logged("", level) && Concat([]) == "";
    assert EmitAll(level, [a]) == r && Concat([a]) == a;
    assert Concat(msgs) == a + b;
    if InsideTag(a + b, |a|) {
      var k: nat := 1;
      assert InsideTag(Concat(msgs), |Concat(msgs[..k])|);
    }
  }

  /** The eight tags, and the levels they give; anything else gets level 4. */
  lemma {:induction false} TagsWrittenOut(s: string)
    ensures HasTag(s) <==>
              |s| >= 3 && s[..3] in ["<0>", "<1>", "<2>", "<3>", "<4>", "<5>", "<6>", "<7>"]
    ensures HasTag(s) ==> LevelOf(s) == s[1] as int - 48
    ensures !HasTag(s) ==> LevelOf(s) == 4 && Prefix(-1, s) == "<4>"
  {
    if |s| >= 3 {
      var t := s[..3];
      assert t == [s[0], s[1], s[2]];
      if HasTag(s) {
        var d := s[1] as int - 48;
        assert d == 0 || d == 1 || d == 2 || d == 3 || d == 4 || d == 5 || d == 6 || d == 7;
      }
    }
  }

  // ---------------------------------------------------------------- two texts

  /** A line that begins in a, at t, has a tag that only a and b together hold. */
  predicate SharedTagAt(level: int, a: string, b: string, t: nat) {
    && t < |a| < t + 3 && (if t == 0 then level < 0 else a[t - 1] == '\n')
    && HasTag((a + b)[t..])
  }

  ghost predicate SharedTag(level: int, a: string, b: string) {
    exists t: nat :: SharedTagAt(level, a, b, t)
  }

  /** r logs what r1 and r2 log one after the other, or a tag less. */
  ghost predicate SplitsInto(shared: bool, r1: Logged, r2: Logged, r: Logged) {
    && (r.level < 0 <==> r2.level < 0)
    && (if shared then |r1.text + r2.text| == |r.text| + 3 else r.text == r1.text + r2.text)
  }

  /** The log of a + b against the logs of a and b. */
  ghost predicate Splits(level: int, a: string, b: string) {
    SplitsInto(SharedTag(level, a, b), Emit(level, a), Emit(Emit(level, a).level, b), Emit(level, a + b))
  }

  lemma {:induction false} PrependLine(line: string, shared: bool, r1: Logged, r2: Logged, r: Logged)
    requires SplitsInto(shared, r1, r2, r)
    ensures SplitsInto(shared, Logged(line + r1.text, r1.level), r2, Logged(line + r.text, r.level))
  {
    assert line + r1.text + r2.text == line + (r1.text + r2.text);
  }

  lemma {:induction false} EmitSplits(level: int, a: string, b: string)
    ensures Splits(level, a, b)
    decreases |a|
  {
    if a == "" {
      assert a + b == b;
    } else if a[LineLen(a) - 1] == '\n' {
      var n := LineLen(a);
      EmitSplits(-1, a[n..], b);
      SplitsBehindLine(level, a, b);
    } else {
      SplitsOpenLine(level, a, b);
    }
  }

  /** A whole line in front of a changes nothing. */
  lemma {:induction false} SplitsBehindLine(level: int, a: string, b: string)
    requires a != "" && a[LineLen(a) - 1] == '\n' && Splits(-1, a[LineLen(a)..], b)
    ensures Splits(level, a, b)
  {
    SharedBehindLine(level, a, b);
    SameFirstLine(level, a, b);
    EmitStep(level, a);
    EmitStep(level, a + b);
    hide Emit, SharedTag, Prefix, NextLevel, LineLen, SplitsInto;
    var n := LineLen(a);
    var line := Prefix(level, a) + a[..n];
    var r1, r := Emit(-1, a[n..]), Emit(-1, a[n..] + b);
    PrependLine(line, SharedTag(level, a, b), r1, Emit(r1.level, b), r);
  }

  lemma {:induction false} SameFirstLine(level: int, a: string, b: string)
    requires a != "" && a[LineLen(a) - 1] == '\n'
    ensures var n, c := LineLen(a), a + b;
            && LineLen(c) == n && c[..n] == a[..n] && c[n..] == a[n..] + b
            && Prefix(level, c) == Prefix(level, a)
            && NextLevel(level, a) == -1 && NextLevel(level, c) == -1
  {
    var n, c := LineLen(a), a + b;
    LineLenIs(c, n);
    assert c[n - 1] == '\n';
    assert HasTag(a) == HasTag(c);
  }

  lemma {:induction false} SharedBehindLine(level: int, a: string, b: string)
    requires a != "" && a[LineLen(a) - 1] == '\n'
    ensures SharedTag(level, a, b) <==> SharedTag(-1, a[LineLen(a)..], b)
  {
    var n := LineLen(a);
    var c := a + b;
    forall t: nat ensures SharedTagAt(-1, a[n..], b, t) ==> SharedTagAt(level, a, b, n + t) {
      if t <= |a| - n { assert (a[n..] + b)[t..] == c[n + t..]; }
    }
    forall t: nat ensures SharedTagAt(level, a, b, t) ==> n <= t && SharedTagAt(-1, a[n..], b, t - n) {
      if SharedTagAt(level, a, b, t) {
        assert forall i :: 0 <= i < 3 ==> c[t..][i] == c[t + i] != '\n';
        assert c[n - 1] == '\n';
        assert (a[n..] + b)[t - n..] == c[t..];
      }
    }
  }

  /** a ends inside a line. */
  lemma {:induction false} SplitsOpenLine(level: int, a: string, b: string)
    requires a != "" && a[LineLen(a) - 1] != '\n'
    ensures Splits(level, a, b)
  {
    SharedOpenLine(level, a, b);
    OpenLineLogs(level, a);
    if b == "" {
      assert a + b == a;
      var r := Emit(level, a);
      assert r.text + "" == r.text;
      assert Emit(r.level, b) == Logged("", r.level);
    } else {
      OpenLineGoesOn(level, a, b);
      hide Emit, SharedTag, Prefix, NextLevel, LineLen;
      var m, l1 := LineLen(b), NextLevel(level, a);
      var x := b[..m] + Emit(NextLevel(l1, b), b[m..]).text;
      assert Emit(level, a).text + Emit(l1, b).text == Prefix(level, a) + a + x;
      assert Emit(level, a + b).text == Prefix(level, a + b) + a + x;
    }
  }

  lemma {:induction false} OpenLineLogs(level: int, a: string)
    requires a != "" && a[LineLen(a) - 1] != '\n'
    ensures Emit(level, a) == Logged(Prefix(level, a) + a, NextLevel(level, a)) && NextLevel(level, a) >= 0
  {
    assert a[..|a|] == a;
  }

  /** An open line a that b goes on with. */
  lemma {:induction false} OpenLineGoesOn(level: int, a: string, b: string)
    requires a != "" && a[LineLen(a) - 1] != '\n' && b != ""
    ensures var m, l1, c := LineLen(b), NextLevel(level, a), a + b;
            var rest := Emit(NextLevel(l1, b), b[m..]);
            && Emit(l1, b) == Logged(b[..m] + rest.text, rest.level)
            && Emit(level, c).text == Prefix(level, c) + a + (b[..m] + rest.text)
            && (Emit(level, c).level < 0 <==> rest.level < 0)
  {
    hide *;
    OpenLineParts(level, a, b);
    var m, l1, c := LineLen(b), NextLevel(level, a), a + b;
    EmitStep(level, c);
    EmitStep(l1, b);
    var rest := Emit(NextLevel(l1, b), b[m..]);
    EmitBySign(NextLevel(level, c), NextLevel(l1, b), b[m..]);
    Reassociate(Prefix(level, c), a, b[..m], rest.text);
  }

  lemma {:induction false} OpenLineParts(level: int, a: string, b: string)
    requires a != "" && a[LineLen(a) - 1] != '\n' && b != ""
    ensures var m, l1, c := LineLen(b), NextLevel(level, a), a + b;
            && LineLen(c) == |a| + m && c[..|a| + m] == a + b[..m] && c[|a| + m..] == b[m..]
            && Prefix(l1, b) + b[..m] == b[..m]
            && (NextLevel(level, c) < 0 <==> NextLevel(l1, b) < 0)
  {
    LevelIsTag(level, a);
    LineLenIs(a + b, |a| + LineLen(b));
    NextLevels(level, a, b);
  }

  lemma {:induction false} Reassociate(p: string, a: string, b: string, r: string)
    ensures p + (a + b) + r == p + a + (b + r)
  {
  }

  lemma {:induction false} LevelIsTag(level: int, a: string)
    requires a != "" && a[LineLen(a) - 1] != '\n'
    ensures NextLevel(level, a) >= 0
  {
  }

  lemma {:induction false} NextLevels(level: int, a: string, b: string)
    requires a != "" && a[LineLen(a) - 1] != '\n' && b != ""
    ensures NextLevel(level, a + b) < 0 <==> NextLevel(NextLevel(level, a), b) < 0
  {
    var c := a + b;
    LevelIsTag(level, a);
    LineLenIs(c, |a| + LineLen(b));
  }

  lemma {:induction false} SharedOpenLine(level: int, a: string, b: string)
    requires a != "" && a[LineLen(a) - 1] != '\n'
    ensures SharedTag(level, a, b) <==> level < 0 && HasTag(a + b) && !HasTag(a)
    ensures SharedTag(level, a, b) ==> Prefix(level, a) == "<4>" && Prefix(level, a + b) == ""
    ensures !SharedTag(level, a, b) ==> Prefix(level, a) == Prefix(level, a + b)
  {
    var c := a + b;
    assert c[0..] == c;
    if level < 0 && HasTag(c) && !HasTag(a) {
      assert SharedTagAt(level, a, b, 0);
    }
    if t: nat :| SharedTagAt(level, a, b, t) {
      assert t == 0;
    }
  }

  // ---------------------------------------------------------------- histories

  /** A message is cut off inside a tag exactly when an earlier one is, or it shares a tag with the text before. */
  lemma {:induction false} CutsTagGrows(msgs: seq<string>)
    requires msgs != []
    ensures var n := |msgs| - 1;
            CutsTag(msgs) <==> CutsTag(msgs[..n]) || SharedTag(-1, Concat(msgs[..n]), msgs[n])
  {
    hide InsideTag, SharedTag;
    var n := |msgs| - 1;
    var before, last := msgs[..n], msgs[n];
    var a := Concat(before);
    if k: nat :| k < n && InsideTag(a, |Concat(before[..k])|) {
      assert before[..k] == msgs[..k];
      InsideTagExtends(a, last, |Concat(before[..k])|);
    }
    if SharedTag(-1, a, last) {
      SharedIsInside(a, last);
    }
    if k: nat :| k <= n && InsideTag(a + last, |Concat(msgs[..k])|) {
      ConcatPrefix(msgs, k, n);
      InsideTagSplits(a, last, |Concat(msgs[..k])|);
      if !SharedTag(-1, a, last) {
        assert k < n && before[..k] == msgs[..k];
      }
    }
  }

  lemma {:induction false} SharedIsInside(a: string, b: string)
    requires SharedTag(-1, a, b)
    ensures InsideTag(a + b, |a|)
  {
    var t: nat :| SharedTagAt(-1, a, b, t);
    assert TagAt(a + b, t);
  }

  lemma {:induction false} ConcatPrefix(msgs: seq<string>, k: nat, n: nat)
    requires k <= n <= |msgs|
    ensures |Concat(msgs[..k])| <= |Concat(msgs[..n])|
    decreases n
  {
    if k < n {
      ConcatPrefix(msgs, k, n - 1);
      assert msgs[..n][..n - 1] == msgs[..n - 1];
    }
  }

  lemma {:induction false} InsideTagExtends(a: string, b: string, p: nat)
    requires InsideTag(a, p)
    ensures InsideTag(a + b, p)
  {
    var t: nat :| t < p < t + 3 && TagAt(a, t);
    assert (a + b)[t..] == a[t..] + b;
    assert TagAt(a + b, t);
  }

  lemma {:induction false} InsideTagSplits(a: string, b: string, p: nat)
    requires InsideTag(a + b, p) && p <= |a|
    ensures (InsideTag(a, p) && p < |a|) || SharedTag(-1, a, b)
  {
    var c := a + b;
    var t: nat :| t < p < t + 3 && TagAt(c, t);
    assert c[t..] == a[t..] + b;
    if t + 3 <= |a| {
      assert TagAt(a, t);
    } else {
      assert SharedTagAt(-1, a, b, t);
    }
  }

  /** Nothing is lost in a history; it is longer than its joint text by the tags it doubles. */
  ghost predicate Joins(msgs: seq<string>) {
    var e, j := EmitAll(-1, msgs), Emit(-1, Concat(msgs));
    && (e.level < 0 <==> j.level < 0) && |e.text| >= |j.text|
    && (e.text == j.text <==> !CutsTag(msgs))
  }

  lemma {:induction false} HistoryJoins(msgs: seq<string>)
    ensures Joins(msgs)
  {
    if msgs == [] {
      assert Concat(msgs) == "";
    } else {
      var n := |msgs| - 1;
      HistoryJoins(msgs[..n]);
      EmitSplits(-1, Concat(msgs[..n]), msgs[n]);
      CutsTagGrows(msgs);
      JoinsOneMore(msgs);
    }
  }

  lemma {:induction false} JoinsOneMore(msgs: seq<string>)
    requires msgs != [] && Joins(msgs[..|msgs| - 1])
    requires Splits(-1, Concat(msgs[..|msgs| - 1]), msgs[|msgs| - 1])
    requires CutsTag(msgs) <==> CutsTag(msgs[..|msgs| - 1]) || SharedTag(-1, Concat(msgs[..|msgs| - 1]), msgs[|msgs| - 1])
    ensures Joins(msgs)
  {
    hide CutsTag, SharedTag, Emit;
    var n := |msgs| - 1;
    var before, last := msgs[..n], msgs[n];
    var e, j := EmitAll(-1, before), Emit(-1, Concat(before));
    EmitBySign(e.level, j.level, last);
    var x := Emit(e.level, last).text;
    assert EmitAll(-1, msgs).text == e.text + x;
    assert x == Emit(j.level, last).text;
    SuffixCancels(e.text, j.text, x);
  }

  lemma {:induction false} SuffixCancels(a: string, b: string, x: string)
    ensures a + x == b + x <==> a == b
  {
    if a + x == b + x {
      assert |a| == |b|;
      assert (a + x)[..|a|] == a && (b + x)[..|b|] == b;
    }
  }

  /**
   What a history logs: the lines of the joint text, each as it is where it has a tag and behind
   "<4>" where it has none, exactly when no message begins inside a tag at a line start.
   */
  lemma {:induction false} HistoryIsLinewise(msgs: seq<string>)
    ensures EmitAll(-1, msgs).text == JoinTagged(Lines(Concat(msgs))) <==> !CutsTag(msgs)
  {
    HistoryJoins(msgs);
    EmitIsLinewise(-1, Concat(msgs));
  }
}

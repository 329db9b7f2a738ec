/**
 INI documents: sections, pairs with either separator and comments behind them, continuation lines,
 comments, blank lines and junk, how they are written, and what ini_parse makes of them.
 */
module IniDocuments {
  import opened Bytes
  import opened IniParser

  const BLANK: byte := 0x20

  // ---------------------------------------------------------------- rendering a line

  /** Nothing in s reads as the end of a string, of a line, or as the start of a comment. */
  ghost predicate Clean(s: seq<byte>) {
    && (forall i :: 0 <= i < |s| ==> s[i] != NUL && s[i] != NEWLINE)
    && (forall i :: 0 < i < |s| ==> !(IsSpace(s[i - 1]) && s[i] == SEMICOLON))
  }

  predicate Plain(v: seq<byte>) {
    v != [] ==> !IsSpace(v[0]) && !IsSpace(v[|v| - 1]) && !(v[0] == QUOTE && v[|v| - 1] == QUOTE)
  }

  /** A value as written to a file: in quotes where the parser would strip something. */
  function Shown(v: seq<byte>): seq<byte> { if Plain(v) then v else [QUOTE] + v + [QUOTE] }

  lemma {:induction false} ShownIsTight(v: seq<byte>)
    requires Clean(v)
    ensures var w := Shown(v);
            && Clean(w) && Unquoted(w) == v
            && (w != [] ==> !IsSpace(w[0]) && !IsSpace(w[|w| - 1]))
  {
  }

  lemma {:induction false} ShownIsRead(v: seq<byte>)
    requires Clean(v)
    ensures ValueOf(Shown(v)) == v
  {
    hide Unquoted, Shown;
    ShownIsTight(v);
    var w := Shown(v);
    assert LSkip(w) == w;
    FindIs(w, NUL, |w|);
    assert w[..|w|] == w;
    assert RStrip(w) == w;
  }

  /** A name that a line can start with. */
  ghost predicate GoodName(n: seq<byte>) {
    && Clean(n) && n != [] && EQUALS !in n
    && !IsSpace(n[0]) && !IsSpace(n[|n| - 1])
    && n[0] != SEMICOLON && n[0] != HASH && n[0] != OPEN
  }

  lemma {:induction false} StripNewline(s: seq<byte>)
    requires s != [] && !IsSpace(s[0]) && !IsSpace(s[|s| - 1])
    ensures RStrip(s + [NEWLINE]) == s && LSkip(s) == s
  {
    assert (s + [NEWLINE])[..|s|] == s;
  }

  /** A comment behind a value. */
  datatype Note = NoNote | Note(text: seq<byte>)

  function Tail(note: Note): seq<byte> { if note.NoNote? then [] else [BLANK, SEMICOLON] + note.text }

  ghost predicate GoodNote(note: Note) {
    note.Note? ==>
      NUL !in note.text && NEWLINE !in note.text && (note.text != [] ==> !IsSpace(note.text[|note.text| - 1]))
  }

  /** Either separator; a colon serves only where no equals sign is found first. */
  ghost predicate GoodPair(n: seq<byte>, v: seq<byte>, sep: byte) {
    && GoodName(n) && Clean(v)
    && (sep == EQUALS || (sep == COLON && COLON !in n && EQUALS !in v))
  }

  function PairText(n: seq<byte>, v: seq<byte>, sep: byte, note: Note): seq<byte> {
    n + [sep] + (Shown(v) + Tail(note))
  }

  lemma {:induction false} TailShape(note: Note)
    requires GoodNote(note)
    ensures var t := Tail(note);
            t != [] ==> !IsSpace(t[|t| - 1]) && |t| >= 2 && t[0] == BLANK && t[1] == SEMICOLON && NUL !in t && NEWLINE !in t
  {
  }

  /** The line comes apart at its separator into name and value. */
  lemma {:induction false} PairComesApart(n: seq<byte>, v: seq<byte>, sep: byte, note: Note, goesOn: bool)
    requires GoodPair(n, v, sep) && GoodNote(note)
    ensures ParseLine(PairText(n, v, sep, note) + [NEWLINE], goesOn) == Pair(n, ValueOf(Shown(v) + Tail(note)))
  {
    hide *;
    PairMeans(n, v, sep, note);
    var w, t := Shown(v), Tail(note);
    var s := n + [sep] + (w + t);
    PairTextShape(n, sep, w, t);
    StripNewline(s);
    NotSpecial(s, goesOn);
    PairStart(s);
    SeparatorOfPair(n, v, sep, note);
    Unstripped(n);
  }

  lemma {:induction false} PairMeans(n: seq<byte>, v: seq<byte>, sep: byte, note: Note)
    requires GoodPair(n, v, sep) && GoodNote(note)
    ensures var w, t := Shown(v), Tail(note);
            && PairText(n, v, sep, note) == n + [sep] + (w + t)
            && n != [] && !IsSpace(n[0]) && !IsSpace(n[|n| - 1]) && n[0] != SEMICOLON && n[0] != HASH && n[0] != OPEN
            && !IsSpace(sep) && (sep == EQUALS || sep == COLON)
            && (w != [] ==> !IsSpace(w[|w| - 1])) && (t != [] ==> !IsSpace(t[|t| - 1]))
  {
    hide Shown, Tail, Clean;
    ShownIsTight(v);
    TailShape(note);
  }

  lemma {:induction false} PairTextShape(n: seq<byte>, sep: byte, w: seq<byte>, t: seq<byte>)
    requires n != []
    ensures var s := n + [sep] + (w + t);
            && s != [] && s[0] == n[0] && s[..|n|] == n && s[|n| + 1..] == w + t
            && s[|s| - 1] == if t != [] then t[|t| - 1] else if w != [] then w[|w| - 1] else sep
  {
  }

  lemma {:induction false} NotSpecial(s: seq<byte>, goesOn: bool)
    requires s != [] && s[0] != SEMICOLON && s[0] != HASH && RStrip(s + [NEWLINE]) == s && LSkip(s) == s
    ensures ParseLine(s + [NEWLINE], goesOn) == ParseStart(s)
  {
    hide RStrip, LSkip, ParseStart;
  }

  lemma {:induction false} SeparatorOfPair(n: seq<byte>, v: seq<byte>, sep: byte, note: Note)
    requires GoodPair(n, v, sep) && GoodNote(note)
    ensures var s := n + [sep] + (Shown(v) + Tail(note));
            Separator(s) == |n| && CharAt(s, |n|) == sep
  {
    hide Shown, Tail, Separator;
    if sep == EQUALS {
      SeparatorIs(n, Shown(v) + Tail(note));
    } else {
      ShownKeepsOut(v, EQUALS);
      TailShape(note);
      ColonIs(n, Shown(v), Tail(note));
    }
  }

  lemma {:induction false} ShownKeepsOut(v: seq<byte>, c: byte)
    requires c !in v && c != QUOTE
    ensures c !in Shown(v)
  {
  }

  /** With a colon the search for an equals sign ends at the comment or at the end of the line. */
  lemma {:induction false} ColonIs(n: seq<byte>, w: seq<byte>, t: seq<byte>)
    requires GoodName(n) && COLON !in n && EQUALS !in w
    requires t != [] ==> |t| >= 2 && t[0] == BLANK && t[1] == SEMICOLON
    ensures var s := n + [COLON] + (w + t);
            Separator(s) == |n| && CharAt(s, |n|) == COLON
  {
    var s := n + [COLON] + (w + t);
    var r, q := Find(s, EQUALS, 0), |n| + 1 + |w| + 1;
    assert CharAt(s, r) != EQUALS by {
      if t != [] {
        assert s[q - 1] == t[0] && s[q] == t[1];
        assert Stops(s, EQUALS, q);
      }
      if r < |s| && r < q - 1 {
        assert s[r] == if r < |n| then n[r] else if r == |n| then COLON else w[r - |n| - 1];
      }
    }
    forall j | 0 <= j < |n| ensures !Stops(s, COLON, j) {
      assert s[j] == n[j];
      assert j > 0 ==> s[j - 1] == n[j - 1];
    }
    FindIs(s, COLON, |n|);
  }

  /** Behind a value that is not empty a comment is cut off. */
  lemma {:induction false} NoteIsCut(w: seq<byte>, t: seq<byte>)
    requires Clean(w) && w != [] && !IsSpace(w[0]) && !IsSpace(w[|w| - 1])
    requires |t| >= 2 && t[0] == BLANK && t[1] == SEMICOLON
    ensures ValueOf(w + t) == Unquoted(w)
  {
    hide Unquoted;
    var r := w + t;
    assert r[0] == w[0] && LSkip(r) == r;
    forall j | 0 <= j < |w| + 1 ensures !Stops(r, NUL, j) {
      assert r[j] == if j < |w| then w[j] else t[0];
      assert j > 0 ==> r[j - 1] == w[j - 1];
    }
    assert r[|w|] == t[0] && r[|w| + 1] == t[1];
    FindIs(r, NUL, |w| + 1);
    assert r[..|w| + 1] == w + [BLANK];
    StripBlank(w);
  }

  lemma {:induction false} StripBlank(w: seq<byte>)
    requires w != [] && !IsSpace(w[|w| - 1])
    ensures RStrip(w + [BLANK]) == w
  {
    assert (w + [BLANK])[..|w|] == w;
  }

  /** Behind an empty value the comment is taken for the value. */
  lemma {:induction false} NoteIsTaken(t: seq<byte>)
    requires |t| >= 2 && t[0] == BLANK && t[1] == SEMICOLON
    ensures ValueOf(t) != []
  {
    var v := LSkip(t);
    assert Leading(t) == 1 && v[0] == SEMICOLON;
    var f := Find(v, NUL, 0);
    assert !Stops(v, NUL, 0) && f > 0;
    var u := v[..f];
    assert u[0] == SEMICOLON;
    assert RStrip(u) != [] && RStrip(u)[0] == SEMICOLON;
  }

  /** A rendered pair is read back exactly unless a comment stands behind an empty value. */
  lemma {:induction false} PairIsRead(n: seq<byte>, v: seq<byte>, sep: byte, note: Note, goesOn: bool)
    requires GoodPair(n, v, sep) && GoodNote(note)
    ensures ParseLine(PairText(n, v, sep, note) + [NEWLINE], goesOn) == Pair(n, v) <==> v != [] || note.NoNote?
  {
    PairComesApart(n, v, sep, note, goesOn);
    TailShape(note);
    ShownIsTight(v);
    hide ParseLine, ValueOf;
    var w, t := Shown(v), Tail(note);
    if note.NoNote? {
      assert w + t == w;
      ShownIsRead(v);
    } else if v != [] {
      assert w != [];
      NoteIsCut(w, t);
    } else {
      assert w + t == t;
      NoteIsTaken(t);
    }
  }

  lemma {:induction false} Unstripped(s: seq<byte>)
    requires s != [] ==> !IsSpace(s[|s| - 1])
    ensures RStrip(s) == s
  {
  }

  lemma {:induction false} SeparatorIs(n: seq<byte>, w: seq<byte>)
    requires GoodName(n)
    ensures var s := n + [EQUALS] + w;
            Separator(s) == |n| && CharAt(s, |n|) == EQUALS
  {
    var s := n + [EQUALS] + w;
    forall j | 0 <= j < |n| ensures !Stops(s, EQUALS, j) {
      assert s[j] == n[j];
      assert j > 0 ==> s[j - 1] == n[j - 1];
    }
    FindIs(s, EQUALS, |n|);
  }

  /** A heading is read whatever stands behind its bracket. */
  lemma {:induction false} HeaderIsRead(name: seq<byte>, rest: seq<byte>, goesOn: bool)
    requires Clean(name) && CLOSE !in name
    ensures ParseLine([OPEN] + name + [CLOSE] + rest, goesOn) == Header(name)
  {
    hide RStrip, LSkip, Find, Clean;
    HeaderStripped(name, rest);
    var t := RStrip([OPEN] + name + [CLOSE] + rest);
    var more := t[|name| + 2..];
    var r := name + [CLOSE] + more;
    assert t[1..] == r;
    ClosesAt(name, more);
    assert r[..|name|] == name;
  }

  lemma {:induction false} HeaderStripped(name: seq<byte>, rest: seq<byte>)
    ensures var t := RStrip([OPEN] + name + [CLOSE] + rest);
            LSkip(t) == t && [OPEN] + name + [CLOSE] <= t
  {
    var s := [OPEN] + name + [CLOSE] + rest;
    var t := RStrip(s);
    assert s[|name| + 1] == CLOSE && |t| > |name| + 1;
    assert s[..|name| + 2] == [OPEN] + name + [CLOSE];
  }

  lemma {:induction false} ClosesAt(name: seq<byte>, more: seq<byte>)
    requires Clean(name) && CLOSE !in name
    ensures Find(name + [CLOSE] + more, CLOSE, 0) == |name|
  {
    FindIs(name + [CLOSE] + more, CLOSE, |name|);
  }

  /** What a written value says: one pair of quotes is dropped, and a lone quote is empty. */
  ghost predicate Says(w: seq<byte>, v: seq<byte>) {
    || w == [QUOTE] + v + [QUOTE]
    || (w == [QUOTE] && v == [])
    || (w == v && !(w != [] && w[0] == QUOTE && w[|w| - 1] == QUOTE))
  }

  ghost predicate Tight(w: seq<byte>) { Clean(w) && (w != [] ==> !IsSpace(w[0]) && !IsSpace(w[|w| - 1])) }

  /** Spaces before the name, around the separator and behind the value do not count. */
  lemma {:induction false} SpacedPairIsRead(lead: seq<byte>, n: seq<byte>, a: seq<byte>, b: seq<byte>, w: seq<byte>, c: seq<byte>, goesOn: bool)
    requires AllSpaces(lead) && AllSpaces(a) && AllSpaces(b) && AllSpaces(c)
    requires GoodName(n) && Tight(w) && (goesOn ==> lead == [])
    ensures var r := ParseLine(lead + (n + a + [EQUALS] + (b + w)) + (c + [NEWLINE]), goesOn);
            r.Pair? && r.name == n && Says(w, r.value)
  {
    hide *;
    var u := if w == [] then [] else b + w;
    var h := n + a;
    var s := h + [EQUALS] + u;
    NameStarts(n, a, u);
    LineStripped(lead, h + [EQUALS], b, w, c);
    SkipSpaces(lead, s);
    SpacedSeparator(n, a, u);
    PairFound(lead + (h + [EQUALS] + (b + w)) + (c + [NEWLINE]), lead, s, |h|, goesOn);
    assert s[..|h|] == h && s[|h| + 1..] == u;
    NameStripped(n, a);
    WrittenValue(b, w);
  }

  lemma {:induction false} NameStarts(n: seq<byte>, a: seq<byte>, u: seq<byte>)
    requires GoodName(n)
    ensures var s := n + a + [EQUALS] + u;
            && s != [] && s[0] == n[0] && !IsSpace(s[0]) && !IsSpace(EQUALS)
            && s[0] != SEMICOLON && s[0] != HASH && s[0] != OPEN && !IsSpace(n[|n| - 1])
  {
  }

  lemma {:induction false} PairFound(text: seq<byte>, lead: seq<byte>, s: seq<byte>, e: nat, goesOn: bool)
    requires RStrip(text) == lead + s && LSkip(lead + s) == s && (goesOn ==> lead == [])
    requires s != [] && s[0] != SEMICOLON && s[0] != HASH && s[0] != OPEN
    requires e < |s| && Separator(s) == e && CharAt(s, e) == EQUALS
    ensures ParseLine(text, goesOn) == Pair(RStrip(s[..e]), ValueOf(s[e + 1..]))
  {
    hide RStrip, LSkip, Separator, ValueOf;
  }

  lemma {:induction false} StripSpaces(s: seq<byte>, c: seq<byte>)
    requires (forall i :: 0 <= i < |c| ==> IsSpace(c[i])) && (s != [] ==> !IsSpace(s[|s| - 1]))
    ensures RStrip(s + c) == s
  {
    assert forall i :: |s| <= i < |s + c| ==> IsSpace((s + c)[i]);
    assert s != [] ==> (s + c)[|s| - 1] == s[|s| - 1];
    assert (s + c)[..|s|] == s;
  }

  lemma {:induction false} NameStripped(n: seq<byte>, a: seq<byte>)
    requires GoodName(n) && AllSpaces(a)
    ensures RStrip(n + a) == n
  {
    StripSpaces(n, a);
  }

  lemma {:induction false} SkipSpaces(b: seq<byte>, s: seq<byte>)
    requires AllSpaces(b) && s != [] && !IsSpace(s[0])
    ensures LSkip(b + s) == s
  {
    LeadingIs(b, s);
    assert (b + s)[|b|..] == s;
  }

  lemma {:induction false} LineStripped(lead: seq<byte>, h: seq<byte>, b: seq<byte>, w: seq<byte>, c: seq<byte>)
    requires AllSpaces(b) && AllSpaces(c) && Tight(w) && h != [] && !IsSpace(h[|h| - 1])
    ensures RStrip(lead + (h + (b + w)) + (c + [NEWLINE])) == lead + (h + if w == [] then [] else b + w)
  {
    if w == [] {
      assert lead + (h + (b + w)) + (c + [NEWLINE]) == lead + h + (b + c + [NEWLINE]);
      assert h + [] == h;
      StripSpaces(lead + h, b + c + [NEWLINE]);
    } else {
      StripSpaces(lead + (h + (b + w)), c + [NEWLINE]);
    }
  }

  lemma {:induction false} SpacedSeparator(n: seq<byte>, a: seq<byte>, u: seq<byte>)
    requires GoodName(n) && AllSpaces(a)
    ensures var s := n + a + [EQUALS] + u;
            Separator(s) == |n| + |a| && CharAt(s, |n| + |a|) == EQUALS
  {
    var s := n + a + [EQUALS] + u;
    forall j | 0 <= j < |n| + |a| ensures !Stops(s, EQUALS, j) {
      assert s[j] == if j < |n| then n[j] else a[j - |n|];
      assert 0 < j <= |n| ==> s[j - 1] == n[j - 1];
    }
    FindIs(s, EQUALS, |n| + |a|);
  }

  lemma {:induction false} WrittenValue(b: seq<byte>, w: seq<byte>)
    requires AllSpaces(b) && Tight(w)
    ensures Says(w, ValueOf(if w == [] then [] else b + w))
  {
    hide RStrip, LSkip, Find;
    if w == [] {
      assert LSkip([]) == [] by { WholeSkip(); }
    } else {
      SkipSpaces(b, w);
    }
    FindIs(w, NUL, |w|);
    assert w[..|w|] == w;
    Unstripped(w);
  }

  lemma {:induction false} WholeSkip()
    ensures LSkip([]) == []
  {
  }

  /** Lines that are neither a heading nor a pair. */
  ghost predicate Junk(s: seq<byte>) {
    && s != [] && NUL !in s && NEWLINE !in s && !IsSpace(s[0]) && !IsSpace(s[|s| - 1])
    && s[0] != SEMICOLON && s[0] != HASH
    && if s[0] == OPEN then CLOSE !in s else EQUALS !in s && COLON !in s
  }

  lemma {:induction false} JunkIsRead(s: seq<byte>, goesOn: bool)
    requires Junk(s)
    ensures ParseLine(s + [NEWLINE], goesOn) == Malformed
  {
    StripNewline(s);
    if s[0] == OPEN {
      NotFound(s[1..], CLOSE);
    } else {
      NotFound(s, EQUALS);
      NotFound(s, COLON);
    }
  }

  lemma {:induction false} NotFound(s: seq<byte>, c: byte)
    requires c !in s && NUL !in s && c != NUL
    ensures CharAt(s, Find(s, c, 0)) != c
  {
  }

  lemma {:induction false} CommentIsRead(mark: byte, text: seq<byte>, goesOn: bool)
    requires mark == SEMICOLON || mark == HASH
    ensures ParseLine([mark] + text, goesOn) == Ignored
  {
    var s := [mark] + text;
    assert s[0] == mark;
    var t := RStrip(s);
    assert t != [] && t[0] == mark;
  }

  lemma {:induction false} BlankIsRead(text: seq<byte>, goesOn: bool)
    requires forall i :: 0 <= i < |text| ==> IsSpace(text[i])
    ensures ParseLine(text, goesOn) == Ignored
  {
    assert RStrip(text) == [];
  }

  // ---------------------------------------------------------------- documents

  datatype Item =
    | SectionItem(section: seq<byte>)
    | PairItem(name: seq<byte>, value: seq<byte>, sep: byte, note: Note)
    | ContinuationItem(indent: seq<byte>, more: seq<byte>)
    | CommentItem(mark: byte, text: seq<byte>)
    | BlankItem(spaces: seq<byte>)
    | JunkItem(text: seq<byte>)

  function Rendered(it: Item): seq<byte> {
    match it
    case SectionItem(s) => [OPEN] + s + [CLOSE] + [NEWLINE]
    case PairItem(n, v, sep, note) => PairText(n, v, sep, note) + [NEWLINE]
    case ContinuationItem(indent, more) => indent + more + [NEWLINE]
    case CommentItem(mark, text) => [mark] + (text + [NEWLINE])
    case BlankItem(spaces) => spaces + [NEWLINE]
    case JunkItem(text) => text + [NEWLINE]
  }

  ghost predicate AllSpaces(s: seq<byte>) {
    forall i :: 0 <= i < |s| ==> IsSpace(s[i]) && s[i] != NEWLINE
  }

  /** The text of a continuation line; a comment inside it is part of the value. */
  ghost predicate GoodMore(s: seq<byte>) {
    && s != [] && NUL !in s && NEWLINE !in s
    && !IsSpace(s[0]) && !IsSpace(s[|s| - 1]) && s[0] != SEMICOLON && s[0] != HASH
  }

  ghost predicate GoodItem(it: Item) {
    && |Rendered(it)| < MAX_LINE
    && match it
       case SectionItem(s) => Clean(s) && CLOSE !in s
       case PairItem(n, v, sep, note) => GoodPair(n, v, sep) && GoodNote(note) && (v != [] || note.NoNote?)
       case ContinuationItem(indent, more) => indent != [] && AllSpaces(indent) && GoodMore(more)
       case CommentItem(mark, text) => (mark == SEMICOLON || mark == HASH) && NUL !in text && NEWLINE !in text
       case BlankItem(spaces) => AllSpaces(spaces)
       case JunkItem(text) => Junk(text)
  }

  function RenderAll(items: seq<Item>): seq<byte> {
    if items == [] then [] else Rendered(items[0]) + RenderAll(items[1..])
  }

  function NextSection(it: Item, section: seq<byte>): seq<byte> { if it.SectionItem? then it.section else section }

  /** The name that a continuation line behind it goes on with; a section closes it. */
  function NextName(it: Item, name: seq<byte>): seq<byte> {
    match it
    case SectionItem(_) => []
    case PairItem(n, _, _, _) => n
    case _ => name
  }

  function ItemCalls(it: Item, section: seq<byte>, name: seq<byte>): seq<Call> {
    match it
    case PairItem(n, v, _, _) => [Call(section, n, v)]
    case ContinuationItem(_, more) => [Call(section, name, more)]
    case _ => []
  }

  /** The same calls from what the parser keeps: 49 characters of a section, and of a name for continuation lines. */
  function ReadCalls(it: Item, section: seq<byte>, name: seq<byte>): seq<Call> {
    ItemCalls(it, Truncated(section, MAX_SECTION), Truncated(name, MAX_NAME))
  }

  /** What a document means: its values with the sections and names they stand under. */
  function Meaning(items: seq<Item>, section: seq<byte>, name: seq<byte>): seq<Call> {
    if items == [] then []
    else
      ItemCalls(items[0], section, name)
      + Meaning(items[1..], NextSection(items[0], section), NextName(items[0], name))
  }

  /** What the parser makes of it. */
  function Reading(items: seq<Item>, section: seq<byte>, name: seq<byte>): seq<Call> {
    if items == [] then []
    else
      ReadCalls(items[0], section, name)
      + Reading(items[1..], NextSection(items[0], section), NextName(items[0], name))
  }

  /** Well-formed items, with continuation lines only where the parser takes them and a name is open. */
  ghost predicate GoodDocument(items: seq<Item>, multiline: bool, name: seq<byte>) {
    items != [] ==>
      && GoodItem(items[0])
      && (items[0].ContinuationItem? ==> multiline && name != [])
      && GoodDocument(items[1..], multiline, NextName(items[0], name))
  }

  /** No section with a value, and no name that is continued, has more than 49 characters. */
  predicate ShortNames(items: seq<Item>, section: seq<byte>, name: seq<byte>) {
    items != [] ==>
      && (items[0].PairItem? ==> |section| < 50)
      && (items[0].ContinuationItem? ==> |section| < 50 && |name| < 50)
      && ShortNames(items[1..], NextSection(items[0], section), NextName(items[0], name))
  }

  /** The parser's reading is the meaning exactly when nothing too long is used. */
  lemma {:induction false} ReadingIsMeaningExactly(items: seq<Item>, section: seq<byte>, name: seq<byte>)
    ensures |Reading(items, section, name)| == |Meaning(items, section, name)|
    ensures Reading(items, section, name) == Meaning(items, section, name) <==> ShortNames(items, section, name)
  {
    if items != [] {
      var it := items[0];
      var s', n' := NextSection(it, section), NextName(it, name);
      ReadingIsMeaningExactly(items[1..], s', n');
      TruncatedItem(it, section, name);
      hide ReadCalls, ItemCalls;
      HeadsCancel(ReadCalls(it, section, name), ItemCalls(it, section, name),
                  Reading(items[1..], s', n'), Meaning(items[1..], s', n'));
    }
  }

  lemma {:induction false} TruncatedItem(it: Item, section: seq<byte>, name: seq<byte>)
    ensures var r, m := ReadCalls(it, section, name), ItemCalls(it, section, name);
            && |r| == |m|
            && (r == m <==> (it.PairItem? ==> |section| < 50) && (it.ContinuationItem? ==> |section| < 50 && |name| < 50))
  {
    var r, m := ReadCalls(it, section, name), ItemCalls(it, section, name);
    if it.PairItem? || it.ContinuationItem? {
      assert r == m <==> r[0] == m[0];
    }
  }

  lemma {:induction false} HeadsCancel(a: seq<Call>, b: seq<Call>, x: seq<Call>, y: seq<Call>)
    requires |a| == |b| && |x| == |y|
    ensures a + x == b + y <==> a == b && x == y
  {
    if a + x == b + y {
      assert a == (a + x)[..|a|] && x == (a + x)[|a|..];
      assert b == (b + y)[..|b|] && y == (b + y)[|b|..];
    }
  }

  /** No NUL and no newline. */
  ghost predicate Unbroken(s: seq<byte>) { forall i :: 0 <= i < |s| ==> s[i] != NUL && s[i] != NEWLINE }

  lemma {:induction false} UnbrokenConcat(a: seq<byte>, b: seq<byte>)
    requires Unbroken(a) && Unbroken(b)
    ensures Unbroken(a + b)
  {
  }

  lemma {:induction false} UnbrokenLine(s: seq<byte>)
    requires Unbroken(s)
    ensures var l := s + [NEWLINE];
            && l != [] && l[|l| - 1] == NEWLINE && NUL !in l
            && forall i :: 0 <= i < |l| - 1 ==> l[i] != NEWLINE
  {
  }

  lemma {:induction false} PairUnbroken(n: seq<byte>, v: seq<byte>, sep: byte, note: Note)
    requires GoodPair(n, v, sep) && GoodNote(note)
    ensures Unbroken(PairText(n, v, sep, note))
  {
    ShownIsTight(v);
    TailShape(note);
    hide Shown, Tail;
    UnbrokenConcat(Shown(v), Tail(note));
    UnbrokenConcat(n, [sep]);
    UnbrokenConcat(n + [sep], Shown(v) + Tail(note));
  }

  lemma {:induction false} RenderedIsOneLine(it: Item)
    requires GoodItem(it)
    ensures var l := Rendered(it);
            && l != [] && l[|l| - 1] == NEWLINE && NUL !in l
            && forall i :: 0 <= i < |l| - 1 ==> l[i] != NEWLINE
  {
    match it {
      case SectionItem(s) =>
        UnbrokenConcat([OPEN], s);
        UnbrokenConcat([OPEN] + s, [CLOSE]);
        UnbrokenLine([OPEN] + s + [CLOSE]);
      case PairItem(n, v, sep, note) =>
        PairUnbroken(n, v, sep, note);
        UnbrokenLine(PairText(n, v, sep, note));
      case ContinuationItem(indent, more) =>
        UnbrokenConcat(indent, more);
        UnbrokenLine(indent + more);
      case CommentItem(mark, text) =>
        UnbrokenConcat([mark], text);
        UnbrokenLine([mark] + text);
        assert [mark] + (text + [NEWLINE]) == [mark] + text + [NEWLINE];
      case BlankItem(spaces) =>
        UnbrokenLine(spaces);
      case JunkItem(text) =>
        UnbrokenLine(text);
    }
  }

  function LineFor(it: Item): Line {
    match it
    case SectionItem(s) => Header(s)
    case PairItem(n, v, _, _) => Pair(n, v)
    case ContinuationItem(_, more) => Continued(more)
    case JunkItem(_) => Malformed
    case _ => Ignored
  }

  lemma {:induction false} RenderedIsRead(it: Item, goesOn: bool)
    requires GoodItem(it) && (it.ContinuationItem? ==> goesOn)
    ensures ParseLine(Rendered(it), goesOn) == LineFor(it)
  {
    match it {
      case SectionItem(s) => HeaderIsRead(s, [NEWLINE], goesOn);
      case PairItem(n, v, sep, note) => PairIsRead(n, v, sep, note, goesOn);
      case ContinuationItem(indent, more) => ContinuationIsRead(indent, more);
      case CommentItem(mark, text) => CommentIsRead(mark, text + [NEWLINE], goesOn);
      case BlankItem(spaces) => BlankIsRead(spaces + [NEWLINE], goesOn);
      case JunkItem(text) => JunkIsRead(text, goesOn);
    }
  }

  lemma {:induction false} ContinuationIsRead(indent: seq<byte>, more: seq<byte>)
    requires indent != [] && AllSpaces(indent) && GoodMore(more)
    ensures ParseLine(indent + more + [NEWLINE], true) == Continued(more)
  {
    hide ParseStart;
    var t := indent + more;
    assert (t + [NEWLINE])[..|t|] == t;
    assert t[|t| - 1] == more[|more| - 1];
    assert RStrip(t + [NEWLINE]) == t;
    LeadingIs(indent, more);
    assert t[|indent|..] == more;
  }

  lemma {:induction false} LeadingIs(indent: seq<byte>, more: seq<byte>)
    requires AllSpaces(indent) && more != [] && !IsSpace(more[0])
    ensures Leading(indent + more) == |indent|
  {
    var t := indent + more;
    var n := Leading(t);
    assert t[|indent|] == more[0];
    forall i | 0 <= i < |indent| ensures IsSpace(t[i]) { assert t[i] == indent[i]; }
  }

  lemma {:induction false} FirstLine(l: seq<byte>, rest: seq<byte>)
    requires l != [] && l[|l| - 1] == NEWLINE && forall i :: 0 <= i < |l| - 1 ==> l[i] != NEWLINE
    ensures Lines(l + rest, 0) == [l] + Lines(l + rest, |l|)
  {
    var file := l + rest;
    var e := LineEnd(file, 0);
    assert file[|l| - 1] == NEWLINE;
    forall i | 0 <= i < |l| - 1 ensures file[i] != NEWLINE {
      assert file[i] == l[i];
    }
    assert e == |l|;
    assert file[0..e] == l;
  }

  lemma {:induction false} LinesShift(l: seq<byte>, rest: seq<byte>, pos: nat)
    requires pos <= |rest|
    ensures Lines(l + rest, |l| + pos) == Lines(rest, pos)
    decreases |rest| - pos
  {
    if pos < |rest| {
      hide LineEnd;
      EndShift(l, rest, pos);
      var e := LineEnd(rest, pos);
      SliceShift(l, rest, pos, e);
      LinesShift(l, rest, e);
    }
  }

  lemma {:induction false} SliceShift(l: seq<byte>, rest: seq<byte>, a: nat, b: nat)
    requires a <= b <= |rest|
    ensures (l + rest)[|l| + a..|l| + b] == rest[a..b]
  {
  }

  lemma {:induction false} EndShift(l: seq<byte>, rest: seq<byte>, pos: nat)
    requires pos <= |rest|
    ensures LineEnd(l + rest, |l| + pos) == |l| + LineEnd(rest, pos)
    decreases |rest| - pos
  {
    if pos < |rest| { EndShift(l, rest, pos + 1); }
  }

  /** What an item on line lineno reports: its line if the handler refuses its call or it is no item at all, else 0. */
  function Bad(it: Item, calls: seq<Call>, lineno: nat, handler: Handler): nat {
    if it.JunkItem? || (calls != [] && !handler(calls[0])) then lineno else 0
  }

  /** The line of the first error in a document that starts behind line lineno; 0 for none. */
  function FirstBad(items: seq<Item>, section: seq<byte>, name: seq<byte>, lineno: nat, handler: Handler): nat {
    if items == [] then 0
    else
      var it := items[0];
      var b := Bad(it, ReadCalls(it, section, name), lineno + 1, handler);
      if b != 0 then b
      else FirstBad(items[1..], NextSection(it, section), NextName(it, name), lineno + 1, handler)
  }

  /** A run makes these calls on so many lines, and its first error is on line bad. */
  ghost predicate Delivers(st: Ini, r: Outcome, calls: seq<Call>, lines: nat, bad: nat) {
    && r.Returned? && r.state.calls == st.calls + calls && r.state.lineno == st.lineno + lines
    && r.state.error == if st.error != 0 then st.error else bad
  }

  lemma {:induction false} RenderAllSplits(items: seq<Item>)
    requires items != [] && GoodItem(items[0])
    ensures Lines(RenderAll(items), 0) == [Rendered(items[0])] + Lines(RenderAll(items[1..]), 0)
  {
    hide Rendered, Lines, GoodItem;
    var l, rest := Rendered(items[0]), RenderAll(items[1..]);
    RenderedIsOneLine(items[0]);
    FirstLine(l, rest);
    LinesShift(l, rest, 0);
  }

  lemma {:induction false} WholeString(s: seq<byte>)
    requires NUL !in s
    ensures CString(s) == s
  {
    if s != [] {
      WholeString(s[1..]);
      assert s == [s[0]] + s[1..];
    }
  }

  /** The parser's variables stand for a section and an open name. */
  ghost predicate Stands(st: Ini, section: seq<byte>, name: seq<byte>) {
    st.section == Truncated(section, MAX_SECTION) && st.prevName == Truncated(name, MAX_NAME)
  }

  /** One rendered item in one turn of the loop. */
  lemma {:induction false} ItemStep(it: Item, st: Ini, section: seq<byte>, name: seq<byte>, multiline: bool, handler: Handler)
    requires GoodItem(it) && (it.ContinuationItem? ==> multiline && name != []) && Stands(st, section, name)
    ensures !RunsOff(Rendered(it))
    ensures var st' := StepText(st, CString(Buffered(Rendered(it))), multiline, handler);
            var calls := ReadCalls(it, section, name);
            && Stands(st', NextSection(it, section), NextName(it, name))
            && Delivers(st, Returned(st'), calls, 1, Bad(it, calls, st.lineno + 1, handler))
  {
    hide *;
    LineFits(it);
    RenderedIsOneLine(it);
    WholeString(Rendered(it));
    NameIsOpen(st, section, name);
    RenderedIsRead(it, multiline && st.prevName != []);
    StepIs(st, Rendered(it), multiline, handler);
    EffectDelivers(it, st, section, name, handler);
  }

  lemma {:induction false} NameIsOpen(st: Ini, section: seq<byte>, name: seq<byte>)
    requires Stands(st, section, name)
    ensures st.prevName != [] <==> name != []
  {
  }

  lemma {:induction false} StepIs(st: Ini, text: seq<byte>, multiline: bool, handler: Handler)
    ensures StepText(st, text, multiline, handler)
         == Effect(st.(lineno := st.lineno + 1), ParseLine(text, multiline && st.prevName != []), handler)
  {
    hide ParseLine, Effect;
  }

  /** What the line of an item does to the parser's variables. */
  lemma {:induction false} EffectDelivers(it: Item, st: Ini, section: seq<byte>, name: seq<byte>, handler: Handler)
    requires Stands(st, section, name)
    ensures var st' := Effect(st.(lineno := st.lineno + 1), LineFor(it), handler);
            var calls := ReadCalls(it, section, name);
            && Stands(st', NextSection(it, section), NextName(it, name))
            && Delivers(st, Returned(st'), calls, 1, Bad(it, calls, st.lineno + 1, handler))
  {
    assert st.calls + [] == st.calls;
    if it.SectionItem? { assert Truncated([], MAX_NAME) == []; }
    hide Truncated;
  }

  lemma {:induction false} LineFits(it: Item)
    requires GoodItem(it)
    ensures !RunsOff(Rendered(it)) && Buffered(Rendered(it)) == Rendered(it)
  {
    hide Rendered;
  }

  /** From any state, a rendered document makes exactly the calls of its reading, in order, and reports its first error line. */
  lemma {:induction false} DocumentIsRead(items: seq<Item>, st: Ini, section: seq<byte>, name: seq<byte>, multiline: bool, handler: Handler)
    requires GoodDocument(items, multiline, name) && Stands(st, section, name)
    ensures Delivers(st, ParseLines(Lines(RenderAll(items), 0), st, multiline, handler),
                     Reading(items, section, name), |items|, FirstBad(items, section, name, st.lineno, handler))
    decreases |items|
  {
    hide *;
    if items == [] {
      EmptyDocument(items, st, section, name, multiline, handler);
    } else {
      var it, rest := items[0], items[1..];
      GoodHead(items, multiline, name);
      RenderAllSplits(items);
      ItemStep(it, st, section, name, multiline, handler);
      var st' := StepText(st, CString(Buffered(Rendered(it))), multiline, handler);
      var s', n' := NextSection(it, section), NextName(it, name);
      DocumentIsRead(rest, st', s', n', multiline, handler);
      ParseFirst(Rendered(it), Lines(RenderAll(rest), 0), st, multiline, handler);
      FirstItem(items, section, name, st.lineno, handler);
      var calls := ReadCalls(it, section, name);
      var bad := Bad(it, calls, st.lineno + 1, handler);
      OneLineOn(st, st', calls, bad);
      DeliversJoin(st, st', ParseLines(Lines(RenderAll(rest), 0), st', multiline, handler), calls, Reading(rest, s', n'), |rest|,
                   bad, FirstBad(rest, s', n', st.lineno + 1, handler));
    }
  }

  lemma {:induction false} EmptyDocument(items: seq<Item>, st: Ini, section: seq<byte>, name: seq<byte>, multiline: bool, handler: Handler)
    requires items == []
    ensures Delivers(st, ParseLines(Lines(RenderAll(items), 0), st, multiline, handler),
                     Reading(items, section, name), |items|, FirstBad(items, section, name, st.lineno, handler))
  {
    assert st.calls + [] == st.calls;
  }

  lemma {:induction false} GoodHead(items: seq<Item>, multiline: bool, name: seq<byte>)
    requires items != [] && GoodDocument(items, multiline, name)
    ensures GoodItem(items[0]) && (items[0].ContinuationItem? ==> multiline && name != [])
    ensures GoodDocument(items[1..], multiline, NextName(items[0], name))
  {
  }

  lemma {:induction false} ParseFirst(l: seq<byte>, ls: seq<seq<byte>>, st: Ini, multiline: bool, handler: Handler)
    requires !RunsOff(l)
    ensures ParseLines([l] + ls, st, multiline, handler)
         == ParseLines(ls, StepText(st, CString(Buffered(l)), multiline, handler), multiline, handler)
  {
    hide StepText, RunsOff;
    assert ([l] + ls)[1..] == ls;
  }

  lemma {:induction false} FirstItem(items: seq<Item>, section: seq<byte>, name: seq<byte>, lineno: nat, handler: Handler)
    requires items != []
    ensures var it, rest := items[0], items[1..];
            var s', n' := NextSection(it, section), NextName(it, name);
            var calls := ReadCalls(it, section, name);
            var bad := Bad(it, calls, lineno + 1, handler);
            && Reading(items, section, name) == calls + Reading(rest, s', n')
            && FirstBad(items, section, name, lineno, handler)
               == if bad != 0 then bad else FirstBad(rest, s', n', lineno + 1, handler)
  {
    hide ReadCalls, Bad;
  }

  lemma {:induction false} OneLineOn(st: Ini, st': Ini, calls: seq<Call>, bad: nat)
    requires Delivers(st, Returned(st'), calls, 1, bad)
    ensures st'.lineno == st.lineno + 1
  {
  }

  lemma {:induction false} DeliversJoin(st: Ini, st': Ini, r: Outcome, a: seq<Call>, b: seq<Call>, lines: nat, bad: nat, bad': nat)
    requires Delivers(st, Returned(st'), a, 1, bad) && Delivers(st', r, b, lines, bad')
    ensures Delivers(st, r, a + b, lines + 1, if bad != 0 then bad else bad')
  {
    assert st.calls + a + b == st.calls + (a + b);
  }

  /** There is no error exactly when there is no junk and the handler takes every call. */
  lemma {:induction false} NoErrorExactly(items: seq<Item>, section: seq<byte>, name: seq<byte>, lineno: nat, handler: Handler)
    ensures FirstBad(items, section, name, lineno, handler) == 0 <==>
              && (forall k :: 0 <= k < |items| ==> !items[k].JunkItem?)
              && (forall c :: c in Reading(items, section, name) ==> handler(c))
  {
    if items != [] {
      var it, rest := items[0], items[1..];
      var s', n' := NextSection(it, section), NextName(it, name);
      NoErrorExactly(rest, s', n', lineno + 1, handler);
      var calls := ReadCalls(it, section, name);
      forall k | 0 < k < |items| ensures items[k] == rest[k - 1] { }
      assert calls == [] || calls == [calls[0]];
      hide ReadCalls;
      assert Reading(items, section, name) == calls + Reading(rest, s', n');
      assert (forall c :: c in calls ==> handler(c)) <==> (calls == [] || handler(calls[0]));
      assert (forall k :: 0 <= k < |items| ==> !items[k].JunkItem?) <==>
             !it.JunkItem? && (forall k :: 0 <= k < |rest| ==> !rest[k].JunkItem?) by {
        if !it.JunkItem? && (forall k :: 0 <= k < |rest| ==> !rest[k].JunkItem?) {
          forall k | 0 <= k < |items| ensures !items[k].JunkItem? { if k > 0 { assert items[k] == rest[k - 1]; } }
        }
        if forall k :: 0 <= k < |items| ==> !items[k].JunkItem? {
          forall k | 0 <= k < |rest| ensures !rest[k].JunkItem? { assert rest[k] == items[k + 1]; }
        }
      }
    }
  }

  /**
   The law of the parser: a rendered document, run through ini_parse, makes exactly the calls it
   means, in order, unless a section or a continued name is too long to be kept, and the result is
   the line of the first error, 0 when there is none.
   */
  method RenderThenParse(items: seq<Item>, multiline: bool, handler: Handler) returns (r: Outcome)
    requires GoodDocument(items, multiline, [])
    ensures r.Returned? && r.state.calls == Reading(items, [], [])
    ensures r.state.calls == Meaning(items, [], []) <==> ShortNames(items, [], [])
    ensures r.state.error == FirstBad(items, [], [], 0, handler)
    ensures r.state.error == 0 <==>
              && (forall k :: 0 <= k < |items| ==> !items[k].JunkItem?)
              && (forall c :: c in r.state.calls ==> handler(c))
  {
    hide Meaning, Reading, ShortNames, RenderAll, Lines, ParseLines, GoodDocument, FirstBad;
    DocumentIsRead(items, START, [], [], multiline, handler);
    ReadingIsMeaningExactly(items, [], []);
    NoErrorExactly(items, [], [], 0, handler);
    r := IniParse(RenderAll(items), multiline, handler);
    assert START.calls + Reading(items, [], []) == Reading(items, [], []);
  }
}

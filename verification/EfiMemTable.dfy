/**
 efi_build_mem_table: the memory map is copied, sorted by address with the library's Shell
 sort, and compacted in place; boot-services regions become conventional memory and
 adjoining conventional regions are merged.
 */
module EfiMemTable {

  const WORD64 := 0x1_0000_0000_0000_0000
  const HALF64 := 0x8000_0000_0000_0000
  const PAGE := 4096

  const LOADER_CODE := 1
  const LOADER_DATA := 2
  const BOOT_SERVICES_CODE := 3
  const BOOT_SERVICES_DATA := 4
  const CONVENTIONAL := 7
  const TABLE_END := 15

  /** struct efi_mem_desc */
  datatype Desc = Desc(kind: int, start: nat, pages: nat, attribute: nat)

  // ---------------------------------------------------------------- ordering

  /** The sign of the 64-bit difference read as a signed number, as h_cmp_entry returns it. */
  function Compare(a: Desc, b: Desc): int {
    var diff := (a.start - b.start) % WORD64;
    if diff >= HALF64 then -1 else if diff > 0 then 1 else 0
  }

  /** The comparison is the order of addresses exactly when their difference fits a signed 64-bit number. */
  lemma {:induction false} CompareIsOrder(a: Desc, b: Desc)
    requires a.start < WORD64 && b.start < WORD64
    ensures (if a.start < b.start then Compare(a, b) == -1
             else if a.start > b.start then Compare(a, b) == 1 else Compare(a, b) == 0)
            <==> -HALF64 <= a.start - b.start < HALF64
  {
    var d := a.start - b.start;
    if d >= 0 { assert d % WORD64 == d; } else { assert d % WORD64 == d + WORD64; }
  }

  ghost predicate SortedUpTo(s: seq<Desc>, n: nat)
    requires n <= |s|
  {
    forall i, j :: 0 <= i < j < n ==> s[i].start <= s[j].start
  }

  /** Every two addresses are ordered by the comparison. */
  ghost predicate Comparable(s: seq<Desc>) {
    forall i, j :: 0 <= i < |s| && 0 <= j < |s| ==> s[i].start < WORD64 && s[i].start - s[j].start < HALF64
  }

  /** The first n addresses lie in one half of the address space, counted from lo. */
  ghost predicate InWindow(s: seq<Desc>, n: nat, lo: nat)
    requires n <= |s|
  {
    forall i :: 0 <= i < n ==> lo <= s[i].start < lo + HALF64 && s[i].start < WORD64
  }

  lemma {:induction false} WindowExists(s: seq<Desc>) returns (lo: nat)
    requires Comparable(s)
    ensures InWindow(s, |s|, lo)
  {
    if s == [] {
      lo := 0;
    } else {
      var k := Lowest(s);
      lo := s[k].start;
      assert forall i :: 0 <= i < |s| ==> s[i].start - s[k].start < HALF64;
    }
  }

  lemma {:induction false} Lowest(s: seq<Desc>) returns (k: nat)
    requires s != []
    ensures k < |s| && forall i :: 0 <= i < |s| ==> s[k].start <= s[i].start
  {
    if |s| == 1 {
      k := 0;
    } else {
      var n := |s| - 1;
      k := Lowest(s[..n]);
      assert forall i :: 0 <= i < n ==> s[..n][i] == s[i];
      if s[n].start < s[k].start { k := n; }
    }
  }

  // ---------------------------------------------------------------- Shell sort

  /** The gaps 1, 4, 13, ... of the library's qsort. */
  predicate IsGap(g: nat) {
    g == 1 || (g > 1 && (g - 1) % 3 == 0 && IsGap((g - 1) / 3))
  }

  method Swap(a: array<Desc>, i: nat, j: nat)
    requires i < j < a.Length
    modifies a
    ensures a[..] == old(a[..])[i := old(a[j])][j := old(a[i])]
    ensures multiset(a[..]) == old(multiset(a[..]))
  {
    a[i], a[j] := a[j], a[i];
  }

  /** In order except for pairs that end at j. */
  ghost predicate SortedExcept(s: seq<Desc>, n: nat, j: nat)
    requires n <= |s|
  {
    forall x, y :: 0 <= x < y < n && y != j ==> s[x].start <= s[y].start
  }

  /** The innermost loop: move element i down by steps of gap while it is out of order. */
  method SiftDown(a: array<Desc>, n: nat, i: nat, gap: nat, ghost lo: nat)
    requires gap <= i < n <= a.Length && gap > 0
    modifies a
    ensures multiset(a[..]) == old(multiset(a[..])) && a[n..] == old(a[n..])
    ensures InWindow(old(a[..]), n, lo) ==> InWindow(a[..], n, lo)
    ensures InWindow(old(a[..]), n, lo) && gap == 1 && SortedUpTo(old(a[..]), i) ==> SortedUpTo(a[..], i + 1)
  {
    hide InWindow, SortedUpTo, SortedExcept, Compare;
    ghost var ordered := InWindow(a[..], n, lo);
    ghost var sorting := ordered && gap == 1 && SortedUpTo(a[..], i);
    if sorting { SiftStarts(a[..], i); }
    var j: nat := i;
    while j >= gap
      invariant j <= i && (ordered ==> InWindow(a[..], n, lo))
      invariant multiset(a[..]) == old(multiset(a[..])) && a[n..] == old(a[n..])
      invariant sorting ==> SortedExcept(a[..], i + 1, j)
    {
      ghost var s := a[..];
      j := j - gap;
      assert a[j] == s[j] && a[j + gap] == s[j + gap];
      if ordered { SiftStep(s, n, lo, j, gap); }
      if Compare(a[j], a[j + gap]) <= 0 {
        if sorting { SiftEnds(s, i + 1, j); }
        return;
      }
      if sorting { SiftSwaps(s, i + 1, j); }
      Swap(a, j, j + gap);
    }
    if sorting { SiftBottom(a[..], i + 1); }
  }

  lemma {:induction false} SiftStarts(s: seq<Desc>, i: nat)
    requires i < |s| && SortedUpTo(s, i)
    ensures SortedExcept(s, i + 1, i)
  {
  }

  /** The comparison orders j and j + gap, and a swap stays in the window. */
  lemma {:induction false} SiftStep(s: seq<Desc>, n: nat, lo: nat, j: nat, gap: nat)
    requires n <= |s| && j + gap < n && gap > 0 && InWindow(s, n, lo)
    ensures Compare(s[j], s[j + gap]) <= 0 <==> s[j].start <= s[j + gap].start
    ensures InWindow(s[j := s[j + gap]][j + gap := s[j]], n, lo)
  {
    CompareIsOrder(s[j], s[j + gap]);
    hide Compare;
  }

  lemma {:induction false} SiftSwaps(s: seq<Desc>, n: nat, j: nat)
    requires n <= |s| && j + 1 < n && SortedExcept(s, n, j + 1) && s[j].start > s[j + 1].start
    ensures SortedExcept(s[j := s[j + 1]][j + 1 := s[j]], n, j)
  {
  }

  lemma {:induction false} SiftEnds(s: seq<Desc>, n: nat, j: nat)
    requires n <= |s| && j + 1 < n && SortedExcept(s, n, j + 1) && s[j].start <= s[j + 1].start
    ensures SortedUpTo(s, n)
  {
    forall x | 0 <= x < j ensures s[x].start <= s[j].start { }
  }

  lemma {:induction false} SiftBottom(s: seq<Desc>, n: nat)
    requires n <= |s| && SortedExcept(s, n, 0)
    ensures SortedUpTo(s, n)
  {
  }

  method ShellPass(a: array<Desc>, n: nat, gap: nat, ghost lo: nat)
    requires 0 < gap < n <= a.Length
    modifies a
    ensures multiset(a[..]) == old(multiset(a[..])) && a[n..] == old(a[n..])
    ensures InWindow(old(a[..]), n, lo) ==> InWindow(a[..], n, lo)
    ensures InWindow(old(a[..]), n, lo) && gap == 1 ==> SortedUpTo(a[..], n)
  {
    ghost var ordered := InWindow(a[..], n, lo);
    var i := gap;
    while i < n
      invariant gap <= i <= n && (ordered ==> InWindow(a[..], n, lo))
      invariant multiset(a[..]) == old(multiset(a[..])) && a[n..] == old(a[n..])
      invariant ordered && gap == 1 ==> SortedUpTo(a[..], i)
    {
      hide InWindow;
      SiftDown(a, n, i, gap, lo);
      i := i + 1;
    }
  }

  method FirstGap(n: nat) returns (gap: nat)
    requires n > 1
    ensures 0 < gap < n && IsGap(gap)
  {
    gap := 1;
    assert IsGap(gap);
    hide IsGap;
    while gap < (n - 1) / 3
      invariant 0 < gap < n && IsGap(gap)
    {
      GapGrows(gap);
      gap := 3 * gap + 1;
    }
  }

  lemma {:induction false} GapGrows(gap: nat)
    requires gap > 0 && IsGap(gap)
    ensures IsGap(3 * gap + 1)
  {
    assert (3 * gap + 1 - 1) / 3 == gap;
  }

  lemma {:induction false} NextGap(gap: nat)
    requires gap > 0 && IsGap(gap)
    ensures var next := (gap - 1) / 3;
            next < gap && (next > 0 ==> IsGap(next)) && (next == 0 ==> gap == 1)
  {
  }

  /** qsort from lib/qsort.c, on elements instead of bytes. */
  method Qsort(a: array<Desc>, n: nat)
    requires n <= a.Length
    modifies a
    ensures multiset(a[..]) == old(multiset(a[..])) && a[n..] == old(a[n..])
    ensures Comparable(old(a[..n])) ==> SortedUpTo(a[..], n)
  {
    ghost var ordered, lo: nat := Comparable(a[..n]), 0;
    if ordered {
      lo := WindowExists(a[..n]);
      assert InWindow(a[..], n, lo) by { assert forall i :: 0 <= i < n ==> a[..n][i] == a[..][i]; }
    }
    if n > 1 {
      var gap := FirstGap(n);
      hide IsGap, InWindow, Comparable;
      while gap > 0
        invariant 0 <= gap < n && (gap > 0 ==> IsGap(gap)) && (ordered ==> InWindow(a[..], n, lo))
        invariant multiset(a[..]) == old(multiset(a[..])) && a[n..] == old(a[n..])
        invariant ordered && gap == 0 ==> SortedUpTo(a[..], n)
      {
        ShellPass(a, n, gap, lo);
        NextGap(gap);
        gap := (gap - 1) / 3;
      }
    }
  }

  // ---------------------------------------------------------------- compaction

  predicate IsBootServices(kind: int) {
    kind == LOADER_CODE || kind == LOADER_DATA || kind == BOOT_SERVICES_CODE || kind == BOOT_SERVICES_DATA
  }

  function Normalise(skipBs: bool, d: Desc): Desc {
    if skipBs && IsBootServices(d.kind) then d.(kind := CONVENTIONAL) else d
  }

  /** The address after a region, in 64-bit arithmetic. */
  function EndOf(d: Desc): nat { (d.start + d.pages * PAGE) % WORD64 }

  /** Whether d joins the last entry, addr being where the region before d ends. */
  predicate Joins(skipBs: bool, out: seq<Desc>, addr: nat, d: Desc) {
    && skipBs && out != [] && d.start == addr
    && Normalise(skipBs, d).kind == CONVENTIONAL && out[|out| - 1].kind == CONVENTIONAL
  }

  function Add(skipBs: bool, out: seq<Desc>, addr: nat, d: Desc): seq<Desc> {
    if Joins(skipBs, out, addr, d) then
      var last := out[|out| - 1];
      out[|out| - 1 := last.(pages := (last.pages + d.pages) % WORD64)]
    else out + [Normalise(skipBs, d)]
  }

  function LastEnd(s: seq<Desc>): nat {
    if s == [] then 0 else EndOf(s[|s| - 1])
  }

  function Compact(skipBs: bool, s: seq<Desc>): (r: seq<Desc>)
    ensures |r| <= |s| && (s != [] ==> r != [])
  {
    if s == [] then []
    else
      var before := s[..|s| - 1];
      Add(skipBs, Compact(skipBs, before), LastEnd(before), s[|s| - 1])
  }

  /** Whether d, normalised, contributes address x to kind. */
  function Covers(skipBs: bool, d: Desc, x: int, kind: int): nat {
    if Normalise(skipBs, d).kind == kind && d.start <= x < d.start + d.pages * PAGE then 1 else 0
  }

  /** How many entries of a kind contain address x: the multiset of (address, kind). */
  function Coverage(skipBs: bool, s: seq<Desc>, x: int, kind: int): nat {
    if s == [] then 0
    else Coverage(skipBs, s[..|s| - 1], x, kind) + Covers(skipBs, s[|s| - 1], x, kind)
  }

  ghost predicate FitsAddressSpace(s: seq<Desc>) {
    forall i :: 0 <= i < |s| ==> s[i].start + s[i].pages * PAGE < WORD64
  }

  ghost predicate NoMergeableNeighbours(s: seq<Desc>) {
    forall i :: 0 <= i < |s| - 1 && s[i].kind == CONVENTIONAL && s[i + 1].kind == CONVENTIONAL ==>
      s[i].start + s[i].pages * PAGE != s[i + 1].start
  }

  /** Sorted, inside the address space, nothing left to merge, and ending where s ends. */
  ghost predicate WellShaped(skipBs: bool, s: seq<Desc>, out: seq<Desc>) {
    && SortedUpTo(out, |out|) && FitsAddressSpace(out)
    && (skipBs ==> NoMergeableNeighbours(out))
    && (s != [] ==> out != [] && LastEnd(out) == LastEnd(s) && out[|out| - 1].start <= s[|s| - 1].start)
  }

  /** The entry a joining region is merged into: exactly the two regions together. */
  lemma {:induction false} MergedEntry(last: Desc, d: Desc)
    requires last.start + last.pages * PAGE == d.start && d.start + d.pages * PAGE < WORD64
    ensures var m := last.(pages := (last.pages + d.pages) % WORD64);
            m.start + m.pages * PAGE == d.start + d.pages * PAGE && EndOf(m) == EndOf(d)
  {
  }

  lemma {:induction false} EndIsPlain(d: Desc)
    requires d.start + d.pages * PAGE < WORD64
    ensures EndOf(d) == d.start + d.pages * PAGE
  {
  }

  lemma {:induction false} AddKeepsShape(skipBs: bool, s: seq<Desc>, out: seq<Desc>, d: Desc)
    requires WellShaped(skipBs, s, out) && (out == [] <==> s == [])
    requires d.start + d.pages * PAGE < WORD64 && (s != [] ==> s[|s| - 1].start <= d.start)
    ensures WellShaped(skipBs, s + [d], Add(skipBs, out, LastEnd(s), d))
  {
    var m := |out| - 1;
    EndIsPlain(d);
    if out != [] { EndIsPlain(out[m]); }
    if Joins(skipBs, out, LastEnd(s), d) { MergedEntry(out[m], d); }
    hide EndOf;
  }

  lemma {:induction false} AddKeepsCoverage(skipBs: bool, s: seq<Desc>, out: seq<Desc>, d: Desc, x: int, kind: int)
    requires WellShaped(skipBs, s, out) && (out == [] <==> s == [])
    requires d.start + d.pages * PAGE < WORD64
    requires Coverage(false, out, x, kind) == Coverage(skipBs, s, x, kind)
    ensures Coverage(false, Add(skipBs, out, LastEnd(s), d), x, kind) == Coverage(skipBs, s + [d], x, kind)
  {
    hide Coverage, SortedUpTo, NoMergeableNeighbours;
    CoverageAppend(skipBs, s, d, x, kind);
    if Joins(skipBs, out, LastEnd(s), d) {
      var last := out[|out| - 1];
      EndIsPlain(last);
      hide Covers, EndOf;
      MergedCovers(skipBs, last, d, x, kind);
      CoverageOfUpdate(out, last.(pages := (last.pages + d.pages) % WORD64), x, kind);
    } else {
      CoverageAppend(false, out, Normalise(skipBs, d), x, kind);
    }
  }

  lemma {:induction false} CoverageOfUpdate(s: seq<Desc>, d: Desc, x: int, kind: int)
    requires s != []
    ensures Coverage(false, s[|s| - 1 := d], x, kind) + Covers(false, s[|s| - 1], x, kind)
         == Coverage(false, s, x, kind) + Covers(false, d, x, kind)
  {
    var m := |s| - 1;
    assert s[m := d][..m] == s[..m];
  }

  lemma {:induction false} CoverageAppend(skipBs: bool, s: seq<Desc>, d: Desc, x: int, kind: int)
    ensures Coverage(skipBs, s + [d], x, kind) == Coverage(skipBs, s, x, kind) + Covers(skipBs, d, x, kind)
  {
    assert (s + [d])[..|s|] == s;
  }

  lemma {:induction false} MergedCovers(skipBs: bool, last: Desc, d: Desc, x: int, kind: int)
    requires last.start + last.pages * PAGE == d.start && d.start + d.pages * PAGE < WORD64
    requires last.kind == CONVENTIONAL && Normalise(skipBs, d).kind == CONVENTIONAL
    ensures Covers(false, last.(pages := (last.pages + d.pages) % WORD64), x, kind)
         == Covers(false, last, x, kind) + Covers(skipBs, d, x, kind)
  {
    MergedEntry(last, d);
  }

  /** For a sorted map without overflow, compaction keeps the order and every address with
      its (normalised) kind, and leaves no two conventional neighbours that touch. */
  lemma {:induction false} CompactIsFaithful(skipBs: bool, s: seq<Desc>)
    requires SortedUpTo(s, |s|) && FitsAddressSpace(s)
    ensures WellShaped(skipBs, s, Compact(skipBs, s))
    ensures forall x, kind :: Coverage(false, Compact(skipBs, s), x, kind) == Coverage(skipBs, s, x, kind)
  {
    if s != [] {
      var n := |s| - 1;
      var before, d := s[..n], s[n];
      assert s == before + [d];
      CompactIsFaithful(skipBs, before);
      var out := Compact(skipBs, before);
      hide Coverage, WellShaped, Add;
      AddKeepsShape(skipBs, before, out, d);
      forall x, kind
        ensures Coverage(false, Add(skipBs, out, LastEnd(before), d), x, kind) == Coverage(skipBs, s, x, kind)
      {
        AddKeepsCoverage(skipBs, before, out, d, x, kind);
      }
    }
  }

  lemma {:induction false} CoverageWithout(skipBs: bool, s: seq<Desc>, i: nat, x: int, kind: int)
    requires i < |s|
    ensures Coverage(skipBs, s, x, kind) == Coverage(skipBs, s[..i] + s[i + 1..], x, kind) + Covers(skipBs, s[i], x, kind)
  {
    var n, rest := |s| - 1, s[..i] + s[i + 1..];
    if i == n {
      assert rest == s[..n];
    } else {
      CoverageWithout(skipBs, s[..n], i, x, kind);
      assert rest[..n - 1] == s[..n][..i] + s[..n][i + 1..];
    }
  }

  /** Coverage does not depend on the order of the entries. */
  lemma {:induction false} CoverageOfPermutation(skipBs: bool, s: seq<Desc>, t: seq<Desc>, x: int, kind: int)
    requires multiset(s) == multiset(t)
    ensures Coverage(skipBs, s, x, kind) == Coverage(skipBs, t, x, kind)
    decreases |s|
  {
    assert |s| == |multiset(s)| == |multiset(t)| == |t|;
    if s != [] {
      var n := |s| - 1;
      assert s[n] in multiset(s);
      var i :| 0 <= i < |t| && t[i] == s[n];
      hide Covers;
      RemoveOne(s, t, i);
      CoverageOfPermutation(skipBs, s[..n], t[..i] + t[i + 1..], x, kind);
      CoverageWithout(skipBs, t, i, x, kind);
    }
  }

  lemma {:induction false} RemoveOne(s: seq<Desc>, t: seq<Desc>, i: nat)
    requires multiset(s) == multiset(t) && s != [] && i < |t| && t[i] == s[|s| - 1]
    ensures multiset(s[..|s| - 1]) == multiset(t[..i] + t[i + 1..])
  {
    var n, d := |s| - 1, t[i];
    TakeOut(s, n);
    TakeOut(t, i);
    assert s[..n] + s[n + 1..] == s[..n];
    var a, b := multiset(s[..n]), multiset(t[..i] + t[i + 1..]);
    assert a == (a + multiset{d}) - multiset{d} && b == (b + multiset{d}) - multiset{d};
  }

  lemma {:induction false} TakeOut(s: seq<Desc>, i: nat)
    requires i < |s|
    ensures multiset(s) == multiset(s[..i] + s[i + 1..]) + multiset{s[i]}
  {
    assert s == s[..i] + [s[i]] + s[i + 1..];
  }

  lemma {:induction false} CompactLast(skipBs: bool, s: seq<Desc>)
    requires s != []
    ensures var n := |s| - 1;
            Compact(skipBs, s) == Add(skipBs, Compact(skipBs, s[..n]), LastEnd(s[..n]), s[n])
  {
  }

  lemma {:induction false} AddWithoutSkipping(out: seq<Desc>, addr: nat, d: Desc)
    ensures Add(false, out, addr, d) == out + [d]
  {
  }

  /** Without skip_bs nothing is changed or merged. */
  lemma {:induction false} CompactWithoutSkipping(s: seq<Desc>)
    ensures Compact(false, s) == s
  {
    if s != [] {
      hide *;
      var n := |s| - 1;
      CompactWithoutSkipping(s[..n]);
      CompactLast(false, s);
      AddWithoutSkipping(s[..n], LastEnd(s[..n]), s[n]);
      assert s[..n] + [s[n]] == s;
    }
  }

  // ---------------------------------------------------------------- the table

  /** One turn of the loop: descriptor desc is copied to dest or merged into dest - 1. */
  method PlaceDesc(base: array<Desc>, desc: nat, dest: nat, skipBs: bool, addr: nat) returns (dest': nat, addr': nat)
    requires dest <= desc < base.Length
    modifies base
    ensures dest' <= desc + 1 && addr' == EndOf(old(base[desc]))
    ensures base[..dest'] == Add(skipBs, old(base[..dest]), addr, old(base[desc]))
    ensures base[desc + 1..] == old(base[desc + 1..])
  {
    ghost var out, d := base[..dest], base[desc];
    var kind := base[desc].kind;
    if skipBs && IsBootServices(kind) { kind := CONVENTIONAL; }
    base[dest] := base[desc];
    base[dest] := base[dest].(kind := kind);
    assert base[..dest] == out && base[dest] == Normalise(skipBs, d);
    assert base[desc].start == d.start && base[desc].pages == d.pages;
    addr' := EndOf(base[desc]);
    if skipBs && dest > 0 && base[desc].start == addr && kind == CONVENTIONAL && base[dest - 1].kind == CONVENTIONAL {
      assert Joins(skipBs, out, addr, d);
      base[dest - 1] := base[dest - 1].(pages := (base[dest - 1].pages + base[desc].pages) % WORD64);
      dest' := dest;
    } else {
      assert !Joins(skipBs, out, addr, d);
      dest' := dest + 1;
    }
  }

  /** The loop of efi_build_mem_table: dest never overtakes desc, so each descriptor is read
      before its place is reused. Returns the number of entries before the end mark. */
  method CompactInPlace(base: array<Desc>, n: nat, skipBs: bool) returns (m: nat)
    requires n < base.Length
    modifies base
    ensures m <= n && base[..m] == Compact(skipBs, old(base[..n])) && base[m].kind == TABLE_END
  {
    ghost var s := base[..];
    var desc: nat, dest: nat, addr: nat := 0, 0, 0;
    assert s[..0] == [];
    while desc < n
      invariant dest <= desc <= n
      invariant base[..dest] == Compact(skipBs, s[..desc]) && addr == LastEnd(s[..desc])
      invariant base[desc..] == s[desc..]
    {
      CompactGrows(skipBs, s, desc);
      assert base[desc] == base[desc..][0] && s[desc] == s[desc..][0];
      assert base[desc + 1..] == base[desc..][1..] && s[desc + 1..] == s[desc..][1..];
      hide Compact, Add, EndOf;
      dest, addr := PlaceDesc(base, desc, dest, skipBs, addr);
      desc := desc + 1;
    }
    m := dest;
    ghost var out := base[..m];
    base[m] := base[m].(kind := TABLE_END);
    assert base[..m] == out;
  }

  lemma {:induction false} CompactGrows(skipBs: bool, s: seq<Desc>, k: nat)
    requires k < |s|
    ensures Compact(skipBs, s[..k + 1]) == Add(skipBs, Compact(skipBs, s[..k]), LastEnd(s[..k]), s[k])
    ensures LastEnd(s[..k + 1]) == EndOf(s[k])
  {
    assert s[..k + 1][..k] == s[..k];
  }

  lemma {:induction false} PermutationFits(s: seq<Desc>, t: seq<Desc>)
    requires multiset(s) == multiset(t) && FitsAddressSpace(s)
    ensures FitsAddressSpace(t)
  {
    forall i | 0 <= i < |t| ensures t[i].start + t[i].pages * PAGE < WORD64 {
      assert t[i] in multiset(t);
      var j :| 0 <= j < |s| && s[j] == t[i];
    }
  }

  lemma {:induction false} DropCommonLast(s: seq<Desc>, t: seq<Desc>, d: Desc)
    requires multiset(s + [d]) == multiset(t + [d])
    ensures multiset(s) == multiset(t)
  {
    assert multiset(s) == multiset(s + [d]) - multiset{d};
    assert multiset(t) == multiset(t + [d]) - multiset{d};
  }

  /** What the table promises about the map it was built from. */
  ghost predicate TableOf(skipBs: bool, descs: seq<Desc>, table: seq<Desc>) {
    && SortedUpTo(table, |table|)
    && (forall x, kind :: Coverage(false, table, x, kind) == Coverage(skipBs, descs, x, kind))
    && (if skipBs then NoMergeableNeighbours(table) else multiset(table) == multiset(descs))
  }

  lemma {:induction false} CompactedIsTable(skipBs: bool, descs: seq<Desc>, sorted: seq<Desc>)
    requires multiset(sorted) == multiset(descs) && SortedUpTo(sorted, |sorted|) && FitsAddressSpace(descs)
    ensures TableOf(skipBs, descs, Compact(skipBs, sorted))
  {
    PermutationFits(descs, sorted);
    CompactIsFaithful(skipBs, sorted);
    if !skipBs { CompactWithoutSkipping(sorted); }
    hide Coverage, Compact;
    var table := Compact(skipBs, sorted);
    forall x, kind ensures Coverage(false, table, x, kind) == Coverage(skipBs, descs, x, kind) {
      CoverageOfPermutation(skipBs, sorted, descs, x, kind);
    }
  }

  // ---------------------------------------------------------------- by the types of the map

  /** The pages of d contain address x. */
  predicate Has(d: Desc, x: int) { d.start <= x < d.start + 4096 * d.pages }

  /** How many entries have a property. */
  function Number(s: seq<Desc>, q: Desc -> bool): nat {
    if s == [] then 0 else Number(s[..|s| - 1], q) + if q(s[|s| - 1]) then 1 else 0
  }

  function Typed(kinds: set<int>, x: int): Desc -> bool { (d: Desc) => d.kind in kinds && Has(d, x) }

  function Exactly(kind: int, attribute: nat, x: int): Desc -> bool {
    (d: Desc) => d.kind == kind && d.attribute == attribute && Has(d, x)
  }

  /**
   What skip_bs makes of a map, by the numbers of the memory types: conventional memory (7) is where
   the map has loader code and data, boot services code and data (1 to 4) or conventional memory;
   types 1 to 4 are gone; every other type is where it was, with its attributes.
   */
  ghost predicate Skipped(descs: seq<Desc>, table: seq<Desc>) {
    && (forall i :: 0 <= i < |table| ==> table[i].kind !in {1, 2, 3, 4})
    && (forall x :: Number(table, Typed({7}, x)) == Number(descs, Typed({1, 2, 3, 4, 7}, x)))
    && (forall x, kind, a: nat :: kind !in {1, 2, 3, 4, 7} ==>
          Number(table, Exactly(kind, a, x)) == Number(descs, Exactly(kind, a, x)))
    && (forall i :: 0 <= i < |table| - 1 && table[i].kind == 7 && table[i + 1].kind == 7 ==>
          table[i].start + 4096 * table[i].pages != table[i + 1].start)
  }

  lemma {:induction false} CoverageIsNumber(s: seq<Desc>, x: int)
    ensures Coverage(false, s, x, 7) == Number(s, Typed({7}, x))
    ensures Coverage(true, s, x, 7) == Number(s, Typed({1, 2, 3, 4, 7}, x))
  {
    if s != [] {
      var d := s[|s| - 1];
      CoverageIsNumber(s[..|s| - 1], x);
      assert Covers(false, d, x, 7) == if Typed({7}, x)(d) then 1 else 0;
      assert Covers(true, d, x, 7) == if Typed({1, 2, 3, 4, 7}, x)(d) then 1 else 0;
    }
  }

  lemma {:induction false} NumberAppend(s: seq<Desc>, d: Desc, q: Desc -> bool)
    ensures Number(s + [d], q) == Number(s, q) + if q(d) then 1 else 0
  {
    assert (s + [d])[..|s|] == s;
  }

  /** Types that are neither skipped nor merged pass through compaction. */
  lemma {:induction false} OthersPass(s: seq<Desc>, kind: int, a: nat, x: int)
    requires kind !in {1, 2, 3, 4, 7}
    ensures Number(Compact(true, s), Exactly(kind, a, x)) == Number(s, Exactly(kind, a, x))
    ensures forall i :: 0 <= i < |Compact(true, s)| ==> Compact(true, s)[i].kind !in {1, 2, 3, 4}
  {
    if s != [] {
      var n := |s| - 1;
      var d, out, q := s[n], Compact(true, s[..n]), Exactly(kind, a, x);
      OthersPass(s[..n], kind, a, x);
      if Joins(true, out, LastEnd(s[..n]), d) {
        var m := |out| - 1;
        var merged := out[m].(pages := (out[m].pages + d.pages) % WORD64);
        var out' := out[m := merged];
        assert out'[..m] == out[..m];
        assert !q(merged) && !q(out[m]) && !q(d);
      } else {
        NumberAppend(out, Normalise(true, d), q);
        assert q(Normalise(true, d)) == q(d);
      }
    }
  }

  lemma {:induction false} NumberWithout(s: seq<Desc>, i: nat, q: Desc -> bool)
    requires i < |s|
    ensures Number(s, q) == Number(s[..i] + s[i + 1..], q) + if q(s[i]) then 1 else 0
  {
    var n, rest := |s| - 1, s[..i] + s[i + 1..];
    if i == n {
      assert rest == s[..n];
    } else {
      NumberWithout(s[..n], i, q);
      assert rest[..n - 1] == s[..n][..i] + s[..n][i + 1..];
    }
  }

  lemma {:induction false} NumberOfPermutation(s: seq<Desc>, t: seq<Desc>, q: Desc -> bool)
    requires multiset(s) == multiset(t)
    ensures Number(s, q) == Number(t, q)
    decreases |s|
  {
    assert |s| == |multiset(s)| == |multiset(t)| == |t|;
    if s != [] {
      var n := |s| - 1;
      assert s[n] in multiset(s);
      var i :| 0 <= i < |t| && t[i] == s[n];
      RemoveOne(s, t, i);
      NumberOfPermutation(s[..n], t[..i] + t[i + 1..], q);
      NumberWithout(t, i, q);
    }
  }

  /** The table of a map, by the numbers of its types. */
  lemma {:induction false} TableSkips(descs: seq<Desc>, sorted: seq<Desc>)
    requires multiset(sorted) == multiset(descs) && TableOf(true, descs, Compact(true, sorted))
    ensures Skipped(descs, Compact(true, sorted))
  {
    hide Compact, Coverage, Number, Typed, Exactly;
    var table := Compact(true, sorted);
    OthersPass(sorted, 0, 0, 0);
    forall x ensures Number(table, Typed({7}, x)) == Number(descs, Typed({1, 2, 3, 4, 7}, x)) {
      CoverageIsNumber(table, x);
      CoverageIsNumber(descs, x);
    }
    forall x, kind, a: nat | kind !in {1, 2, 3, 4, 7}
      ensures Number(table, Exactly(kind, a, x)) == Number(descs, Exactly(kind, a, x))
    {
      OthersPass(sorted, kind, a, x);
      NumberOfPermutation(sorted, descs, Exactly(kind, a, x));
    }
  }

  lemma {:induction false} SortedPrefix(s: seq<Desc>, n: nat)
    requires n <= |s| && SortedUpTo(s, n)
    ensures SortedUpTo(s[..n], n)
  {
  }

  /** efi_build_mem_table on a map of descriptors of the structure's own size. */
  method BuildMemTable(descs: seq<Desc>, skipBs: bool) returns (base: array<Desc>, m: nat)
    ensures fresh(base) && m < base.Length && base[m].kind == TABLE_END
    ensures exists order: seq<Desc> :: multiset(order) == multiset(descs) && base[..m] == Compact(skipBs, order)
    ensures Comparable(descs) && FitsAddressSpace(descs) ==> TableOf(skipBs, descs, base[..m])
    ensures Comparable(descs) && FitsAddressSpace(descs) && skipBs ==> Skipped(descs, base[..m])
  {
    hide Skipped, TableOf, Compact, Comparable, FitsAddressSpace, SortedUpTo;
    var n := |descs|;
    base := new Desc[n + 1](i => if 0 <= i < |descs| then descs[i] else Desc(TABLE_END, 0, 0, 0));
    assert base[..n] == descs;
    assert base[..] == descs + [base[n]];
    Qsort(base, n);
    ghost var sorted := base[..n];
    assert base[n] == base[n..][0];
    assert base[..] == sorted + [base[n]];
    DropCommonLast(sorted, descs, base[n]);
    if Comparable(descs) && FitsAddressSpace(descs) {
      SortedPrefix(base[..], n);
      CompactedIsTable(skipBs, descs, sorted);
      if skipBs { TableSkips(descs, sorted); }
    }
    m := CompactInPlace(base, n, skipBs);
    assert multiset(sorted) == multiset(descs) && base[..m] == Compact(skipBs, sorted);
  }
}

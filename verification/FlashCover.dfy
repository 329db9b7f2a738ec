/**
 Flash whose known banks follow each other without a gap: a range between sector
 boundaries selects exactly its sectors, and the "start +length" form selects the smallest
 set of whole sectors that covers the length.
 */
module FlashCover {
  import opened FlashPlan

  ghost predicate Neighbours(banks: seq<Bank>, i: nat, j: nat) {
    && i < j < |banks| && banks[i].known && banks[j].known
    && forall k :: i < k < j ==> !banks[k].known
  }

  /** Known banks ascend back to back; unknown ones have no sectors. */
  ghost predicate Contiguous(banks: seq<Bank>) {
    && Usable(banks) && AllWellFormed(banks)
    && (forall i :: 0 <= i < |banks| && !banks[i].known ==> banks[i].start == [])
    && forall i: nat, j: nat :: Neighbours(banks, i, j) ==> banks[j].start[0] == BankEnd(banks[i]) + 1
  }

  /** Sector s of known bank i. */
  ghost predicate IsSector(banks: seq<Bank>, i: nat, s: nat) {
    i < |banks| && banks[i].known && s < |banks[i].start|
  }

  ghost predicate Before(i: nat, s: nat, j: nat, t: nat) {
    i < j || (i == j && s < t)
  }

  lemma {:induction false} RestIsContiguous(banks: seq<Bank>)
    requires banks != [] && Contiguous(banks)
    ensures Contiguous(banks[1..])
  {
    var rest := banks[1..];
    forall i: nat, j: nat | Neighbours(rest, i, j) ensures rest[j].start[0] == BankEnd(rest[i]) + 1 {
      assert Neighbours(banks, i + 1, j + 1) by {
        forall k | i + 1 < k < j + 1 ensures !banks[k].known { assert banks[k] == rest[k - 1]; }
      }
    }
  }

  /** The next known bank after i, at or before j. */
  lemma {:induction false} NextKnown(banks: seq<Bank>, i: nat, j: nat) returns (k: nat)
    requires i < j < |banks| && banks[i].known && banks[j].known
    ensures Neighbours(banks, i, k) && k <= j
    decreases j - i
  {
    k := i + 1;
    while !banks[k].known
      invariant i < k <= j && forall m :: i < m < k ==> !banks[m].known
      decreases j - k
    {
      k := k + 1;
    }
  }

  lemma {:induction false} BanksAscend(banks: seq<Bank>, i: nat, j: nat)
    requires Contiguous(banks) && i < j < |banks| && banks[i].known && banks[j].known
    ensures BankEnd(banks[i]) < banks[j].start[0]
    decreases j - i
  {
    var k := NextKnown(banks, i, j);
    if k < j {
      BanksAscend(banks, k, j);
      SectorBounds(banks[k], 0);
    }
  }

  /** Sectors in order of bank and index are in order of address. */
  lemma {:induction false} SectorsAscend(banks: seq<Bank>, i: nat, s: nat, j: nat, t: nat)
    requires Contiguous(banks) && IsSector(banks, i, s) && IsSector(banks, j, t) && Before(i, s, j, t)
    ensures SectorEnd(banks[i], s) < banks[j].start[t]
  {
    SectorBounds(banks[i], s);
    SectorBounds(banks[j], t);
    if i == j { SectorsAreDisjoint(banks[i], s, t); } else { BanksAscend(banks, i, j); }
  }

  // ---------------------------------------------------------------- ranges between boundaries

  /** Exactly the sectors that the range touches are selected. */
  ghost predicate SelectsTouched(banks: seq<Bank>, picks: seq<Pick>, first: nat, last: nat) {
    && |picks| == |banks|
    && (forall i: nat, s: nat :: Selected(picks, i, s) ==> IsSector(banks, i, s))
    && (forall i: nat, s: nat :: IsSector(banks, i, s) ==>
         (Selected(picks, i, s) <==> Touches(banks[i], s, first, last)))
  }

  lemma {:induction false} SelectsPrepends(banks: seq<Bank>, pick: Pick, picks: seq<Pick>, first: nat, next: nat, last: nat)
    requires |banks| == |picks| + 1 && SelectsTouched(banks[1..], picks, next, last)
    requires forall s: nat :: Selected([pick], 0, s) ==> IsSector(banks, 0, s)
    requires forall s: nat :: IsSector(banks, 0, s) ==>
               (Selected([pick], 0, s) <==> Touches(banks[0], s, first, last))
    requires forall i: nat, s: nat :: IsSector(banks[1..], i, s) ==>
               (Touches(banks[1..][i], s, first, last) <==> Touches(banks[1..][i], s, next, last))
    ensures SelectsTouched(banks, [pick] + picks, first, last)
  {
    var all, rest := [pick] + picks, banks[1..];
    forall i: nat, s: nat | Selected(all, i, s) ensures IsSector(banks, i, s) {
      if i == 0 { assert Selected([pick], 0, s); } else {
        assert Selected(picks, i - 1, s);
        assert IsSector(rest, i - 1, s);
      }
    }
    forall i: nat, s: nat | IsSector(banks, i, s)
      ensures Selected(all, i, s) <==> Touches(banks[i], s, first, last)
    {
      if i == 0 { assert Selected(all, 0, s) <==> Selected([pick], 0, s); } else {
        assert IsSector(rest, i - 1, s) && rest[i - 1] == banks[i];
        assert Selected(all, i, s) <==> Selected(picks, i - 1, s);
      }
    }
  }

  lemma {:induction false} ScanFirstIs(b: Bank, s: nat, last: nat)
    requires WellFormed(b) && s < |b.start| && b.start[s] <= last
    ensures ScanFirst(b, b.start[s], last, |b.start|) == s
  {
    var sf := ScanFirst(b, b.start[s], last, |b.start|);
    ScanFirstMeans(b, b.start[s], last, |b.start|);
    SectorBounds(b, s);
    assert Touches(b, s, b.start[s], last);
    if 0 <= sf < s { StartsAscend(b, sf, s); } else if s < sf { StartsAscend(b, s, sf); }
  }

  lemma {:induction false} ScanLastIs(b: Bank, s: nat, t: nat)
    requires WellFormed(b) && s <= t < |b.start|
    ensures ScanLast(b, b.start[s], SectorEnd(b, t), |b.start|) == t
  {
    var first, last := b.start[s], SectorEnd(b, t);
    var sl := ScanLast(b, first, last, |b.start|);
    ScanLastMeans(b, first, last, |b.start|);
    SectorBounds(b, t);
    if s < t { StartsAscend(b, s, t); }
    assert Touches(b, t, first, last);
    if 0 <= sl < t { SectorsAreDisjoint(b, sl, t); } else if t < sl { SectorsAreDisjoint(b, t, sl); }
  }

  lemma {:induction false} ScanLastIsNone(b: Bank, first: nat, last: nat)
    requires WellFormed(b) && BankEnd(b) < last
    ensures ScanLast(b, first, last, |b.start|) == -1
  {
    var sl := ScanLast(b, first, last, |b.start|);
    ScanLastMeans(b, first, last, |b.start|);
    if sl >= 0 { SectorBounds(b, sl); }
  }

  /** Sectors s to t are the ones between the start of s and an address up to which only t ends. */
  lemma {:induction false} TouchedAreBetween(b: Bank, s: nat, t: nat, last: nat)
    requires WellFormed(b) && s <= t < |b.start| && SectorEnd(b, t) <= last
    requires t == |b.start| - 1 || SectorEnd(b, t) == last
    ensures forall k: nat :: k < |b.start| ==>
              (Selected([Sectors(s, t)], 0, k) <==> Touches(b, k, b.start[s], last))
  {
    assert [Sectors(s, t)][0] == Sectors(s, t);
    forall k: nat | k < |b.start|
      ensures Selected([Sectors(s, t)], 0, k) <==> Touches(b, k, b.start[s], last)
    {
      SectorBounds(b, k);
      SectorBounds(b, t);
      if k < s { SectorsAreDisjoint(b, k, s); } else if s < k { StartsAscend(b, s, k); }
      if k < t { SectorsAreDisjoint(b, k, t); } else if t < k { SectorsAreDisjoint(b, t, k); }
    }
  }

  /** The range starts and ends in this bank. */
  lemma {:induction false} BothEndsInBank(b: Bank, s: nat, t: nat)
    requires b.known && WellFormed(b) && s <= t < |b.start|
    ensures Choose(b, b.start[s], SectorEnd(b, t)) == Take(Sectors(s, t), (SectorEnd(b, t) + 1) % WORD)
  {
    SectorBounds(b, t);
    if s < t { StartsAscend(b, s, t); }
    ScanFirstIs(b, s, SectorEnd(b, t));
    ScanLastIs(b, s, t);
  }

  /** The range starts in this bank and ends in a later one. */
  lemma {:induction false} StartsInBank(b: Bank, s: nat, last: nat)
    requires b.known && WellFormed(b) && s < |b.start| && BankEnd(b) < last
    ensures Choose(b, b.start[s], last) == Take(Sectors(s, |b.start| - 1), (BankEnd(b) + 1) % WORD)
  {
    SectorBounds(b, s);
    ScanFirstIs(b, s, last);
    ScanLastIsNone(b, b.start[s], last);
  }

  /** When the range is used up, or no known bank is left, nothing more is picked. */
  lemma {:induction false} NothingLeft(banks: seq<Bank>, first: nat, last: nat)
    requires Usable(banks)
    requires last < first || forall i :: 0 <= i < |banks| ==> !banks[i].known
    ensures var r := MakePlan(banks, first, last);
            r.Planned? && forall i :: 0 <= i < |banks| ==> r.picks[i] == None
    decreases |banks|
  {
    if banks != [] { NothingLeft(banks[1..], first, last); }
  }

  /** A range from the start of sector s in bank i to the end of sector t in bank j is
      planned, and selects exactly the sectors from the one to the other. */
  lemma {:induction false} RangeIsCovered(banks: seq<Bank>, i: nat, s: nat, j: nat, t: nat)
    requires Contiguous(banks) && IsSector(banks, i, s) && IsSector(banks, j, t) && !Before(j, t, i, s)
    ensures var first, last := banks[i].start[s], SectorEnd(banks[j], t);
            var r := MakePlan(banks, first, last);
            r.Planned? && SelectsTouched(banks, r.picks, first, last)
    decreases |banks|, 1
  {
    if i > 0 {
      SkippedBank(banks, i, s, j, t);
    } else if j == 0 {
      OnlyBank(banks, s, t);
    } else {
      FirstOfSeveralBanks(banks, s, j, t);
    }
  }

  lemma {:induction false} OnlyBank(banks: seq<Bank>, s: nat, t: nat)
    requires Contiguous(banks) && IsSector(banks, 0, s) && IsSector(banks, 0, t) && s <= t
    ensures var first, last := banks[0].start[s], SectorEnd(banks[0], t);
            var r := MakePlan(banks, first, last);
            r.Planned? && SelectsTouched(banks, r.picks, first, last)
  {
    hide *;
    IsSectorMeans(banks, 0, s);
    IsSectorMeans(banks, 0, t);
    var b, rest := banks[0], banks[1..];
    var first, last := b.start[s], SectorEnd(b, t);
    var next := (last + 1) % WORD;
    RestIsContiguous(banks);
    ContiguousMeans(banks);
    ContiguousMeans(rest);
    BothEndsInBank(b, s, t);
    TouchedAreBetween(b, s, t, last);
    SectorBounds(b, t);
    NothingAfter(banks, t);
    NothingLeft(rest, next, last);
    PlanContinues(banks, first, last, Sectors(s, t), next);
    var picks := MakePlan(rest, next, last).picks;
    HeadOnly(banks, s, t, picks, first, next, last);
  }

  /** Nothing behind the first bank is touched or picked. */
  lemma {:induction false} HeadOnly(banks: seq<Bank>, s: nat, t: nat, picks: seq<Pick>, first: nat, next: nat, last: nat)
    requires banks != [] && |picks| == |banks| - 1 && (forall i :: 0 <= i < |picks| ==> picks[i] == None)
    requires IsSector(banks, 0, s) && IsSector(banks, 0, t) && s <= t
    requires forall k: nat, m: nat :: IsSector(banks[1..], k, m) ==> last < banks[1..][k].start[m]
    requires forall k: nat :: k < |banks[0].start| ==>
               (Selected([Sectors(s, t)], 0, k) <==> Touches(banks[0], k, first, last))
    ensures SelectsTouched(banks, [Sectors(s, t)] + picks, first, last)
  {
    hide SectorEnd;
    assert SelectsTouched(banks[1..], picks, next, last);
    SelectsPrepends(banks, Sectors(s, t), picks, first, next, last);
  }

  lemma {:induction false} ContiguousMeans(banks: seq<Bank>)
    requires Contiguous(banks)
    ensures Usable(banks)
  {
  }

  /** Past the end of the last selected sector there is no sector, or the address did not wrap. */
  lemma {:induction false} NothingAfter(banks: seq<Bank>, t: nat)
    requires Contiguous(banks) && IsSector(banks, 0, t)
    ensures var rest, last, next := banks[1..], SectorEnd(banks[0], t), (SectorEnd(banks[0], t) + 1) % WORD;
            && (forall k: nat, m: nat :: IsSector(rest, k, m) ==> last < rest[k].start[m])
            && (last < next || forall k :: 0 <= k < |rest| ==> !rest[k].known)
  {
    var rest, last := banks[1..], SectorEnd(banks[0], t);
    forall k: nat, m: nat | IsSector(rest, k, m) ensures last < rest[k].start[m] && last + 1 < WORD {
      assert rest[k] == banks[k + 1] && IsSector(banks, k + 1, m);
      SectorsAscend(banks, 0, t, k + 1, m);
      StartIsAddress(rest[k], m);
    }
    if k :| 0 <= k < |rest| && rest[k].known {
      assert IsSector(rest, k, 0);
    }
  }

  lemma {:induction false} SkippedBank(banks: seq<Bank>, i: nat, s: nat, j: nat, t: nat)
    requires Contiguous(banks) && IsSector(banks, i, s) && IsSector(banks, j, t) && !Before(j, t, i, s) && i > 0
    ensures var first, last := banks[i].start[s], SectorEnd(banks[j], t);
            var r := MakePlan(banks, first, last);
            r.Planned? && SelectsTouched(banks, r.picks, first, last)
    decreases |banks|, 0
  {
    var first, last := banks[i].start[s], SectorEnd(banks[j], t);
    var b, rest := banks[0], banks[1..];
    SectorBounds(banks[i], s);
    SectorBounds(banks[j], t);
    if Before(i, s, j, t) { SectorsAscend(banks, i, s, j, t); }
    assert first <= last;
    if b.known {
      BanksAscend(banks, 0, i);
      BelowIsSkipped(b, first, last);
    }
    assert Choose(b, first, last) == Skip;
    forall k: nat | IsSector(banks, 0, k) ensures !Touches(b, k, first, last) {
      SectorBounds(b, k);
    }
    RestIsContiguous(banks);
    assert rest[i - 1] == banks[i] && rest[j - 1] == banks[j];
    hide WellFormed, Choose, SectorEnd, Contiguous;
    RangeIsCovered(rest, i - 1, s, j - 1, t);
    SelectsPrepends(banks, None, MakePlan(rest, first, last).picks, first, first, last);
  }

  lemma {:induction false} FirstOfSeveralBanks(banks: seq<Bank>, s: nat, j: nat, t: nat)
    requires Contiguous(banks) && IsSector(banks, 0, s) && IsSector(banks, j, t) && j > 0
    ensures var first, last := banks[0].start[s], SectorEnd(banks[j], t);
            var r := MakePlan(banks, first, last);
            r.Planned? && SelectsTouched(banks, r.picks, first, last)
    decreases |banks|, 0
  {
    hide WellFormed, Choose, SectorEnd, Contiguous, BankEnd, MakePlan, SelectsTouched;
    IsSectorMeans(banks, 0, s);
    IsSectorMeans(banks, j, t);
    ContiguousMeans(banks);
    var first, last := banks[0].start[s], SectorEnd(banks[j], t);
    var b, rest := banks[0], banks[1..];
    var n, next := |b.start|, BankEnd(b) + 1;
    var k := FirstBankIsTaken(banks, s, j, t);
    RestIsContiguous(banks);
    LaterSectorsEndLater(banks);
    assert rest[k - 1] == banks[k] && rest[j - 1] == banks[j];
    RangeIsCovered(rest, k - 1, 0, j - 1, t);
    PlanContinues(banks, first, last, Sectors(s, n - 1), next);
    SelectsPrepends(banks, Sectors(s, n - 1), MakePlan(rest, next, last).picks, first, next, last);
  }

  lemma {:induction false} PlanContinues(banks: seq<Bank>, first: nat, last: nat, pick: Pick, next: nat)
    requires Usable(banks) && banks != [] && Choose(banks[0], first, last) == Take(pick, next)
    ensures MakePlan(banks, first, last) == Prepend(pick, MakePlan(banks[1..], next, last))
    ensures var rest := MakePlan(banks[1..], next, last);
            rest.Planned? ==> MakePlan(banks, first, last) == Planned([pick] + rest.picks)
  {
  }

  /** The start bank gives everything from sector s, and planning goes on with the next bank. */
  lemma {:induction false} FirstBankIsTaken(banks: seq<Bank>, s: nat, j: nat, t: nat) returns (k: nat)
    requires Contiguous(banks) && IsSector(banks, 0, s) && IsSector(banks, j, t) && j > 0
    ensures 0 < k <= j && IsSector(banks, k, 0) && banks[k].start[0] == BankEnd(banks[0]) + 1
    ensures var b, first, last := banks[0], banks[0].start[s], SectorEnd(banks[j], t);
            && first <= BankEnd(b)
            && Choose(b, first, last) == Take(Sectors(s, |b.start| - 1), BankEnd(b) + 1)
            && forall m: nat :: m < |b.start| ==>
                 (Selected([Sectors(s, |b.start| - 1)], 0, m) <==> Touches(b, m, first, last))
  {
    hide *;
    IsSectorMeans(banks, 0, s);
    IsSectorMeans(banks, j, t);
    var b, last := banks[0], SectorEnd(banks[j], t);
    BanksAscend(banks, 0, j);
    SectorBounds(banks[j], t);
    SectorBounds(b, s);
    SectorBounds(b, |b.start| - 1);
    k := NextBank(banks, j);
    StartsInBank(b, s, last);
    SmallPlusOne(BankEnd(b));
    TouchedAreBetween(b, s, |b.start| - 1, last);
  }

  lemma {:induction false} SmallPlusOne(x: nat)
    ensures x + 1 < WORD ==> (x + 1) % WORD == x + 1
  {
  }

  lemma {:induction false} IsSectorMeans(banks: seq<Bank>, i: nat, s: nat)
    requires Contiguous(banks) && IsSector(banks, i, s)
    ensures i < |banks| && s < |banks[i].start| && banks[i].known && WellFormed(banks[i])
  {
  }

  lemma {:induction false} NextBank(banks: seq<Bank>, j: nat) returns (k: nat)
    requires Contiguous(banks) && IsSector(banks, 0, 0) && IsSector(banks, j, 0) && j > 0
    ensures 0 < k <= j && IsSector(banks, k, 0) && banks[k].start[0] == BankEnd(banks[0]) + 1 < WORD
  {
    k := NextKnown(banks, 0, j);
    StartIsAddress(banks[k], 0);
  }

  lemma {:induction false} LaterSectorsEndLater(banks: seq<Bank>)
    requires Contiguous(banks) && IsSector(banks, 0, 0)
    ensures forall m: nat, u: nat :: IsSector(banks[1..], m, u) ==>
              BankEnd(banks[0]) + 1 <= SectorEnd(banks[1..][m], u)
  {
    var n, rest := |banks[0].start|, banks[1..];
    SectorBounds(banks[0], n - 1);
    forall m: nat, u: nat | IsSector(rest, m, u)
      ensures BankEnd(banks[0]) + 1 <= SectorEnd(rest[m], u)
    {
      assert rest[m] == banks[m + 1] && IsSector(banks, m + 1, u);
      SectorsAscend(banks, 0, n - 1, m + 1, u);
      SectorBounds(rest[m], u);
    }
  }
}

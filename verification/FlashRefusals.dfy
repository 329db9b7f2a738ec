/**
 Which ranges the flash commands act on: a range selects sectors exactly when it starts with a sector
 and ends with one or behind the flash; every other range is refused or selects nothing.
 */
module FlashRefusals {
  import opened FlashPlan
  import opened FlashCover

  // ---------------------------------------------------------------- one bank

  ghost predicate StartsSector(b: Bank, a: nat, s: nat) { s < |b.start| && b.start[s] == a }

  ghost predicate EndsSector(b: Bank, a: nat, t: nat) { t < |b.start| && SectorEnd(b, t) == a }

  lemma {:induction false} ScanFirstExactly(b: Bank, first: nat, last: nat)
    requires WellFormed(b) && first <= last
    ensures var r := ScanFirst(b, first, last, |b.start|);
            if r >= 0 then StartsSector(b, first, r) else !exists s: nat :: StartsSector(b, first, s)
  {
    ScanFirstMeans(b, first, last, |b.start|);
    if ScanFirst(b, first, last, |b.start|) < 0 {
      forall s: nat ensures !StartsSector(b, first, s) {
        if s < |b.start| { SectorBounds(b, s); }
      }
    }
  }

  lemma {:induction false} ScanLastExactly(b: Bank, first: nat, last: nat)
    requires WellFormed(b) && first <= last
    ensures var r := ScanLast(b, first, last, |b.start|);
            if r >= 0 then EndsSector(b, last, r) else !exists t: nat :: EndsSector(b, last, t)
  {
    ScanLastMeans(b, first, last, |b.start|);
    if ScanLast(b, first, last, |b.start|) < 0 {
      forall t: nat ensures !EndsSector(b, last, t) {
        if t < |b.start| { SectorBounds(b, t); }
      }
    }
  }

  /** What one bank does with a range, by where the range starts and ends. */
  lemma {:induction false} BankCases(b: Bank, first: nat, last: nat)
    requires WellFormed(b) && first <= last
    ensures var r := PlanBank(b, first, last);
            var starts, ends := exists s: nat :: StartsSector(b, first, s), exists t: nat :: EndsSector(b, last, t);
            && (r.Take? <==> starts && (ends || last > BankEnd(b)))
            && (r.Fail? <==> if starts then !ends && last <= BankEnd(b)
                             else (b.start[0] <= first < BankEnd(b) || ends))
            && (r.Take? ==> && StartsSector(b, first, r.pick.first)
                            && (if ends then EndsSector(b, last, r.pick.last) else r.pick.last == |b.start| - 1))
  {
    ScanFirstExactly(b, first, last);
    ScanLastExactly(b, first, last);
    var sf, sl := ScanFirst(b, first, last, |b.start|), ScanLast(b, first, last, |b.start|);
    hide ScanFirst, ScanLast;
    if sf >= 0 { assert StartsSector(b, first, sf); }
    if sl >= 0 {
      assert EndsSector(b, last, sl);
      SectorBounds(b, sl);
    }
    if sf >= 0 && 0 <= sl < sf { SectorsAreDisjoint(b, sl, sf); }
  }

  // ---------------------------------------------------------------- ranges that select nothing

  ghost predicate NothingPicked(r: Plan) {
    r.Planned? ==> forall i :: 0 <= i < |r.picks| ==> r.picks[i] == None
  }

  /** A range that does not start with a sector is refused or selects nothing. */
  lemma {:induction false} NotAtStart(banks: seq<Bank>, first: nat, last: nat)
    requires Usable(banks) && AllWellFormed(banks)
    requires forall i: nat, s: nat :: IsSector(banks, i, s) ==> banks[i].start[s] != first
    ensures NothingPicked(MakePlan(banks, first, last))
    decreases |banks|
  {
    if banks != [] {
      var rest := banks[1..];
      forall i: nat, s: nat | IsSector(rest, i, s) ensures rest[i].start[s] != first {
        assert IsSector(banks, i + 1, s);
      }
      NotAtStart(rest, first, last);
      if first <= last && banks[0].known {
        BankCases(banks[0], first, last);
        forall s: nat ensures !StartsSector(banks[0], first, s) {
          if s < |banks[0].start| { assert IsSector(banks, 0, s); }
        }
      }
      hide PlanBank;
    }
  }

  /** A range that ends inside a sector is refused. */
  lemma {:induction false} EndInside(banks: seq<Bank>, i: nat, s: nat, j: nat, t: nat, last: nat)
    requires Contiguous(banks) && IsSector(banks, i, s) && IsSector(banks, j, t)
    requires banks[i].start[s] <= last && banks[j].start[t] <= last < SectorEnd(banks[j], t)
    ensures MakePlan(banks, banks[i].start[s], last) == Failed
    decreases |banks|
  {
    hide Contiguous, WellFormed, SectorEnd, BankEnd, MakePlan, Choose;
    IsSectorMeans(banks, i, s);
    IsSectorMeans(banks, j, t);
    ContiguousMeans(banks);
    var first := banks[i].start[s];
    var rest := banks[1..];
    RestIsContiguous(banks);
    ContiguousMeans(rest);
    if i > 0 {
      BankBelowSkips(banks, i, s, j, t, last);
      assert rest[i - 1] == banks[i] && rest[j - 1] == banks[j];
      EndInside(rest, i - 1, s, j - 1, t, last);
      PlanSkips(banks, first, last);
    } else if j == 0 {
      EndInsideBank(banks[0], s, t, last);
      PlanFails(banks, first, last);
    } else {
      var k := StartBankTakes(banks, s, j, t, last);
      assert rest[k - 1] == banks[k] && rest[j - 1] == banks[j];
      IsSectorMeans(banks, k, 0);
      EndInside(rest, k - 1, 0, j - 1, t, last);
      PlanTakes(banks, first, last);
    }
  }

  lemma {:induction false} PlanSkips(banks: seq<Bank>, first: nat, last: nat)
    requires Usable(banks) && banks != [] && Choose(banks[0], first, last) == Skip
    ensures MakePlan(banks, first, last) == Prepend(None, MakePlan(banks[1..], first, last))
  {
    hide Choose;
  }

  lemma {:induction false} PlanFails(banks: seq<Bank>, first: nat, last: nat)
    requires Usable(banks) && banks != [] && Choose(banks[0], first, last) == Fail
    ensures MakePlan(banks, first, last) == Failed
  {
    hide Choose;
  }

  lemma {:induction false} PlanTakes(banks: seq<Bank>, first: nat, last: nat)
    requires Usable(banks) && banks != [] && Choose(banks[0], first, last).Take?
    ensures var Take(pick, next) := Choose(banks[0], first, last);
            MakePlan(banks, first, last) == Prepend(pick, MakePlan(banks[1..], next, last))
  {
    hide Choose;
  }

  lemma {:induction false} BankBelowSkips(banks: seq<Bank>, i: nat, s: nat, j: nat, t: nat, last: nat)
    requires Contiguous(banks) && IsSector(banks, i, s) && IsSector(banks, j, t) && i > 0
    requires banks[i].start[s] <= last < SectorEnd(banks[j], t)
    ensures Choose(banks[0], banks[i].start[s], last) == Skip && j > 0
  {
    var b, first := banks[0], banks[i].start[s];
    if b.known {
      BanksAscend(banks, 0, i);
      SectorBounds(banks[i], s);
      BelowIsSkipped(b, first, last);
      if j == 0 { SectorBounds(b, t); }
    }
  }

  lemma {:induction false} EndInsideBank(b: Bank, s: nat, t: nat, last: nat)
    requires b.known && WellFormed(b) && s < |b.start| && t < |b.start|
    requires b.start[s] <= last && b.start[t] <= last < SectorEnd(b, t)
    ensures Choose(b, b.start[s], last) == Fail
  {
    BankCases(b, b.start[s], last);
    assert StartsSector(b, b.start[s], s);
    forall u: nat ensures !EndsSector(b, last, u) {
      if u < |b.start| && u < t { SectorsAreDisjoint(b, u, t); }
      if u < |b.start| && t < u { SectorsAreDisjoint(b, t, u); }
    }
    SectorBounds(b, t);
    hide PlanBank, SectorEnd, BankEnd;
  }

  /** The start bank gives everything from sector s when the range goes on behind it. */
  lemma {:induction false} StartBankTakes(banks: seq<Bank>, s: nat, j: nat, t: nat, last: nat) returns (k: nat)
    requires Contiguous(banks) && IsSector(banks, 0, s) && IsSector(banks, j, t) && j > 0
    requires banks[j].start[t] <= last
    ensures 0 < k <= j && IsSector(banks, k, 0) && banks[k].start[0] == BankEnd(banks[0]) + 1 <= last
    ensures Choose(banks[0], banks[0].start[s], last) == Take(Sectors(s, |banks[0].start| - 1), banks[k].start[0])
  {
    k := NextBank(banks, j);
    BanksAscend(banks, 0, j);
    SectorBounds(banks[j], t);
    StartsInBank(banks[0], s, last);
    hide Choose;
    SmallPlusOne(BankEnd(banks[0]));
  }

  // ---------------------------------------------------------------- ranges that run past the flash

  ghost predicate Behind(banks: seq<Bank>, a: nat) {
    forall i :: 0 <= i < |banks| && banks[i].known && banks[i].start != [] ==> BankEnd(banks[i]) < a
  }

  /** A range that ends behind the flash is cut at its end. */
  lemma {:induction false} EndBehind(banks: seq<Bank>, i: nat, s: nat, last: nat)
    requires Contiguous(banks) && IsSector(banks, i, s) && last < WORD && Behind(banks, last)
    ensures var r := MakePlan(banks, banks[i].start[s], last);
            r.Planned? && SelectsTouched(banks, r.picks, banks[i].start[s], last)
    decreases |banks|, 1
  {
    hide Contiguous, WellFormed, SectorEnd, BankEnd, MakePlan, Choose, SelectsTouched;
    IsSectorMeans(banks, i, s);
    ContiguousMeans(banks);
    RestIsContiguous(banks);
    var first, rest := banks[i].start[s], banks[1..];
    ContiguousMeans(rest);
    if i > 0 {
      assert rest[i - 1] == banks[i];
      EndBehind(rest, i - 1, s, last);
      BankBelowIsPassed(banks, i, s, last);
      PlanSkips(banks, first, last);
      SelectsPrepends(banks, None, MakePlan(rest, first, last).picks, first, first, last);
    } else {
      StartBankIsTaken(banks, s, last);
      var next := BankEnd(banks[0]) + 1;
      PlanTakes(banks, first, last);
      RestBehind(banks, last);
      SelectsPrepends(banks, Sectors(s, |banks[0].start| - 1), MakePlan(rest, next, last).picks, first, next, last);
    }
  }

  lemma {:induction false} BankBelowIsPassed(banks: seq<Bank>, i: nat, s: nat, last: nat)
    requires Contiguous(banks) && IsSector(banks, i, s) && i > 0 && Behind(banks, last)
    ensures var first := banks[i].start[s];
            && Choose(banks[0], first, last) == Skip
            && (forall u: nat :: IsSector(banks, 0, u) ==> !Touches(banks[0], u, first, last))
            && forall u: nat :: !Selected([None], 0, u)
  {
    var b, first := banks[0], banks[i].start[s];
    SectorBounds(banks[i], s);
    if b.known {
      BanksAscend(banks, 0, i);
      BelowIsSkipped(b, first, last);
      forall u: nat | IsSector(banks, 0, u) ensures !Touches(b, u, first, last) { SectorBounds(b, u); }
    }
  }

  lemma {:induction false} StartBankIsTaken(banks: seq<Bank>, s: nat, last: nat)
    requires Contiguous(banks) && IsSector(banks, 0, s) && last < WORD && Behind(banks, last)
    ensures var b, first := banks[0], banks[0].start[s];
            var pick, next := Sectors(s, |b.start| - 1), BankEnd(b) + 1;
            && next <= last && Choose(b, first, last) == Take(pick, next)
            && (forall u: nat :: Selected([pick], 0, u) ==> IsSector(banks, 0, u))
            && (forall u: nat :: IsSector(banks, 0, u) ==> (Selected([pick], 0, u) <==> Touches(b, u, first, last)))
            && forall m: nat, u: nat :: IsSector(banks[1..], m, u) ==>
                 (Touches(banks[1..][m], u, first, last) <==> Touches(banks[1..][m], u, next, last))
  {
    var b, first := banks[0], banks[0].start[s];
    var next := BankEnd(b) + 1;
    StartsInBank(b, s, last);
    SmallPlusOne(BankEnd(b));
    SectorBounds(b, s);
    SectorBounds(b, |b.start| - 1);
    TouchedAreBetween(b, s, |b.start| - 1, last);
    LaterSectorsEndLater(banks);
    hide Choose, BankEnd, SectorEnd;
  }

  /** What is left of the range behind the first bank. */
  lemma {:induction false} RestBehind(banks: seq<Bank>, last: nat)
    requires Contiguous(banks) && IsSector(banks, 0, 0) && last < WORD && Behind(banks, last)
    ensures var next, rest := BankEnd(banks[0]) + 1, banks[1..];
            var r := MakePlan(rest, next, last);
            r.Planned? && SelectsTouched(rest, r.picks, next, last)
    decreases |banks|, 0
  {
    hide WellFormed, SectorEnd, MakePlan, Choose, Contiguous;
    var next, rest := BankEnd(banks[0]) + 1, banks[1..];
    RestIsContiguous(banks);
    ContiguousMeans(rest);
    if j :| 0 < j < |banks| && banks[j].known {
      KnownHasSector(banks, j);
      var k := NextBank(banks, j);
      assert rest[k - 1] == banks[k];
      EndBehind(rest, k - 1, 0, last);
    } else {
      NothingLeft(rest, next, last);
    }
  }

  lemma {:induction false} KnownHasSector(banks: seq<Bank>, j: nat)
    requires Contiguous(banks) && j < |banks| && banks[j].known
    ensures IsSector(banks, j, 0)
  {
  }

  // ---------------------------------------------------------------- the law

  /** The address lies in the flash, in sector s of bank i. */
  ghost predicate InSector(banks: seq<Bank>, a: nat, i: nat, s: nat) {
    IsSector(banks, i, s) && banks[i].start[s] <= a <= SectorEnd(banks[i], s)
  }

  ghost predicate AtStart(banks: seq<Bank>, a: nat) {
    exists i: nat, s: nat :: IsSector(banks, i, s) && banks[i].start[s] == a
  }

  ghost predicate AtEnd(banks: seq<Bank>, a: nat) {
    exists i: nat, s: nat :: IsSector(banks, i, s) && SectorEnd(banks[i], s) == a
  }

  lemma {:induction false} NothingCounts(picks: seq<Pick>)
    requires forall i :: 0 <= i < |picks| ==> picks[i] == None
    ensures CountSectors(picks) == 0
  {
    if picks != [] { NothingCounts(picks[1..]); }
  }

  lemma {:induction false} TouchedCounts(banks: seq<Bank>, picks: seq<Pick>, i: nat, s: nat, last: nat)
    requires Contiguous(banks) && IsSector(banks, i, s) && banks[i].start[s] <= last
    requires SelectsTouched(banks, picks, banks[i].start[s], last)
    ensures CountSectors(picks) > 0
  {
    hide CountSectors;
    SectorBounds(banks[i], s);
    assert Selected(picks, i, s);
    SelectedCounts(picks, i, s);
  }

  lemma {:induction false} FindInBank(b: Bank, a: nat, s: nat) returns (t: nat)
    requires WellFormed(b) && s < |b.start| && b.start[s] <= a <= BankEnd(b)
    ensures t < |b.start| && b.start[t] <= a <= SectorEnd(b, t)
    decreases |b.start| - s
  {
    SectorBounds(b, s);
    if a <= SectorEnd(b, s) { t := s; } else { t := FindInBank(b, a, s + 1); }
  }

  /** In back-to-back banks every address from a bank's start to a later bank's end lies in a sector. */
  lemma {:induction false} FindSector(banks: seq<Bank>, i: nat, m: nat, a: nat) returns (j: nat, t: nat)
    requires Contiguous(banks) && IsSector(banks, i, 0) && IsSector(banks, m, 0) && i <= m
    requires banks[i].start[0] <= a <= BankEnd(banks[m])
    ensures InSector(banks, a, j, t)
    decreases m - i
  {
    hide WellFormed, SectorEnd, BankEnd, Contiguous;
    IsSectorMeans(banks, i, 0);
    if a <= BankEnd(banks[i]) {
      t := FindInBank(banks[i], a, 0);
      j := i;
    } else {
      var k := BankAfter(banks, i, m);
      j, t := FindSector(banks, k, m, a);
    }
  }

  lemma {:induction false} BankAfter(banks: seq<Bank>, i: nat, m: nat) returns (k: nat)
    requires Contiguous(banks) && IsSector(banks, i, 0) && IsSector(banks, m, 0) && i < m
    ensures i < k <= m && IsSector(banks, k, 0) && banks[k].start[0] == BankEnd(banks[i]) + 1
  {
    k := NextKnown(banks, i, m);
    KnownHasSector(banks, k);
  }

  /** From a sector start on, an address that is not behind the flash lies in a sector. */
  lemma {:induction false} LastInFlash(banks: seq<Bank>, i: nat, s: nat, last: nat) returns (j: nat, t: nat)
    requires Contiguous(banks) && IsSector(banks, i, s) && banks[i].start[s] <= last && !Behind(banks, last)
    ensures InSector(banks, last, j, t)
  {
    hide WellFormed, SectorEnd, BankEnd, Contiguous;
    var m :| 0 <= m < |banks| && banks[m].known && banks[m].start != [] && BankEnd(banks[m]) >= last;
    IsSectorMeans(banks, i, s);
    KnownHasSector(banks, m);
    KnownHasSector(banks, i);
    SectorBounds(banks[i], s);
    if m < i { BanksAscend(banks, m, i); }
    j, t := FindSector(banks, i, m, last);
  }

  ghost predicate SelectsSome(r: Plan) { r.Planned? && CountSectors(r.picks) > 0 }

  /**
   In back-to-back banks a range selects sectors exactly when it starts with a sector and ends with
   one or behind the flash, and then it selects the sectors it touches.
   */
  lemma {:induction false} SelectsExactly(banks: seq<Bank>, first: nat, last: nat)
    requires Contiguous(banks) && first <= last < WORD
    ensures Usable(banks)
    ensures var r := MakePlan(banks, first, last);
            && (SelectsSome(r) <==> AtStart(banks, first) && (AtEnd(banks, last) || Behind(banks, last)))
            && (SelectsSome(r) ==> SelectsTouched(banks, r.picks, first, last))
  {
    ContiguousMeans(banks);
    var r := MakePlan(banks, first, last);
    if i: nat, s: nat :| IsSector(banks, i, s) && banks[i].start[s] == first {
      hide MakePlan, Contiguous, SelectsTouched, CountSectors, SectorEnd, WellFormed, Behind;
      if j: nat, t: nat :| IsSector(banks, j, t) && SectorEnd(banks[j], t) == last {
        if Before(j, t, i, s) { SectorsAscend(banks, j, t, i, s); }
        RangeIsCovered(banks, i, s, j, t);
        TouchedCounts(banks, r.picks, i, s, last);
      } else if Behind(banks, last) {
        EndBehind(banks, i, s, last);
        TouchedCounts(banks, r.picks, i, s, last);
      } else {
        var j, t := LastInFlash(banks, i, s, last);
        EndInside(banks, i, s, j, t, last);
      }
    } else {
      assert !AtStart(banks, first);
      NotAtStart(banks, first, last);
      hide MakePlan;
      if r.Planned? { NothingCounts(r.picks); }
    }
  }
}

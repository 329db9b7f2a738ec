/**
 flash_fill_sect_ranges and flash_sect_roundb as functions on a bank layout, with what
 they promise: which sectors a range selects, and when that is right.
 */
module FlashPlan {

  const WORD := 0x1_0000_0000      // ulong is 32 bits wide

  /** flash_info_t: known is flash_id != FLASH_UNKNOWN, start the sector start addresses. */
  datatype Bank = Bank(known: bool, start: seq<nat>, size: nat)

  /** Sector starts ascend inside the bank, and the bank fits the address space. */
  ghost predicate WellFormed(b: Bank) {
    && |b.start| > 0
    && (forall i :: 0 <= i < |b.start| - 1 ==> b.start[i] < b.start[i + 1])
    && b.start[|b.start| - 1] < b.start[0] + b.size <= WORD
  }

  /** The arithmetic of the code, modulo 2^32. */
  function BankEnd(b: Bank): nat
    requires |b.start| > 0
  {
    (b.start[0] + b.size - 1) % WORD
  }

  function SectorEnd(b: Bank, s: nat): nat
    requires s < |b.start|
  {
    if s == |b.start| - 1 then BankEnd(b) else (b.start[s + 1] - 1) % WORD
  }

  lemma {:induction false} StartsAscend(b: Bank, i: nat, j: nat)
    requires WellFormed(b) && i < j < |b.start|
    ensures b.start[i] < b.start[j]
    decreases j - i
  {
    if i + 1 < j { StartsAscend(b, i, j - 1); }
    assert b.start[j - 1] < b.start[(j - 1) + 1];
  }

  /** Sectors in plain arithmetic: they partition the bank in order. */
  lemma {:induction false} SectorBounds(b: Bank, s: nat)
    requires WellFormed(b) && s < |b.start|
    ensures BankEnd(b) == b.start[0] + b.size - 1
    ensures b.start[0] <= b.start[s] <= SectorEnd(b, s) <= BankEnd(b)
    ensures s + 1 < |b.start| ==> SectorEnd(b, s) + 1 == b.start[s + 1]
    ensures s + 1 == |b.start| ==> SectorEnd(b, s) == BankEnd(b)
  {
    var last := |b.start| - 1;
    if 0 < s { StartsAscend(b, 0, s); }
    if s < last {
      StartsAscend(b, s, last);
      assert b.start[s] < b.start[s + 1];
      if s + 1 < last { StartsAscend(b, s + 1, last); }
    }
  }

  lemma {:induction false} SectorsAreDisjoint(b: Bank, i: nat, j: nat)
    requires WellFormed(b) && i < j < |b.start|
    ensures SectorEnd(b, i) < b.start[j] && SectorEnd(b, i) < SectorEnd(b, j)
  {
    SectorBounds(b, i);
    SectorBounds(b, j);
    if i + 1 < j { StartsAscend(b, i + 1, j); }
  }

  // ---------------------------------------------------------------- planning one bank

  predicate Touches(b: Bank, s: nat, first: nat, last: nat)
    requires s < |b.start|
  {
    first <= SectorEnd(b, s) && last >= b.start[s]
  }

  /** s_first[bank] after the first k sectors. */
  function ScanFirst(b: Bank, first: nat, last: nat, k: nat): (r: int)
    requires k <= |b.start|
    ensures -1 <= r < k
  {
    if k == 0 then -1
    else if Touches(b, k - 1, first, last) && first == b.start[k - 1] then k - 1
    else ScanFirst(b, first, last, k - 1)
  }

  /** s_last[bank] after the first k sectors. */
  function ScanLast(b: Bank, first: nat, last: nat, k: nat): (r: int)
    requires k <= |b.start|
    ensures -1 <= r < k
  {
    if k == 0 then -1
    else if Touches(b, k - 1, first, last) && last == SectorEnd(b, k - 1) then k - 1
    else ScanLast(b, first, last, k - 1)
  }

  datatype Pick = None | Sectors(first: nat, last: nat)

  datatype BankPlan = Skip | Take(pick: Pick, next: nat) | Fail

  function PlanBank(b: Bank, first: nat, last: nat): (r: BankPlan)
    requires |b.start| > 0
    ensures r.Take? ==> r.pick.Sectors? && r.pick.first <= r.pick.last < |b.start|
  {
    var sf, sl0 := ScanFirst(b, first, last, |b.start|), ScanLast(b, first, last, |b.start|);
    if sf >= 0 then
      if sl0 < 0 && last <= BankEnd(b) then Fail      // end address not on sector boundary
      else
        var sl := if sl0 < 0 then |b.start| - 1 else sl0;
        if sl < sf then Fail                          // end sector precedes start sector
        else Take(Sectors(sf, sl), if sl == |b.start| - 1 then (BankEnd(b) + 1) % WORD else b.start[sl + 1])
    else if first >= b.start[0] && first < BankEnd(b) then Fail   // start not on sector boundary
    else if sl0 >= 0 then Fail                        // banks mapped in reverse order
    else Skip
  }

  /** Unknown banks are passed over, and so is everything once the range is used up. */
  function Choose(b: Bank, first: nat, last: nat): (r: BankPlan)
    requires b.known ==> |b.start| > 0
    ensures r.Take? ==> r.pick.Sectors? && r.pick.first <= r.pick.last < |b.start|
  {
    if first > last || !b.known then Skip else PlanBank(b, first, last)
  }

  datatype Plan = Failed | Planned(picks: seq<Pick>)

  ghost predicate Usable(banks: seq<Bank>) {
    forall i :: 0 <= i < |banks| && banks[i].known ==> |banks[i].start| > 0
  }

  /** flash_fill_sect_ranges */
  function MakePlan(banks: seq<Bank>, first: nat, last: nat): (r: Plan)
    requires Usable(banks)
    ensures r.Planned? ==> |r.picks| == |banks|
    decreases |banks|
  {
    if banks == [] then Planned([])
    else
      match Choose(banks[0], first, last)
      case Fail => Failed
      case Skip => Prepend(None, MakePlan(banks[1..], first, last))
      case Take(pick, next) => Prepend(pick, MakePlan(banks[1..], next, last))
  }

  function Prepend(p: Pick, r: Plan): Plan {
    if r.Failed? then Failed else Planned([p] + r.picks)
  }

  /** s_count */
  function CountSectors(picks: seq<Pick>): nat {
    if picks == [] then 0
    else (if picks[0].Sectors? && picks[0].first <= picks[0].last then picks[0].last - picks[0].first + 1 else 0)
         + CountSectors(picks[1..])
  }

  // ---------------------------------------------------------------- what is selected

  ghost predicate Selected(picks: seq<Pick>, i: nat, s: nat) {
    i < |picks| && picks[i].Sectors? && picks[i].first <= s <= picks[i].last
  }

  /** A plan that selects a sector counts at least one. */
  lemma {:induction false} SelectedCounts(picks: seq<Pick>, i: nat, s: nat)
    requires Selected(picks, i, s)
    ensures CountSectors(picks) > 0
  {
    if i > 0 { SelectedCounts(picks[1..], i - 1, s); }
  }

  /** Every selected sector is a sector of a known bank and lies inside the range. */
  ghost predicate InRange(banks: seq<Bank>, picks: seq<Pick>, first: nat, last: nat)
    requires |picks| == |banks|
  {
    forall i: nat, s: nat :: Selected(picks, i, s) ==>
      && banks[i].known && s < |banks[i].start|
      && first <= banks[i].start[s] && SectorEnd(banks[i], s) <= last
  }

  lemma {:induction false} ScanFirstMeans(b: Bank, first: nat, last: nat, k: nat)
    requires k <= |b.start|
    ensures var r := ScanFirst(b, first, last, k);
            && (r >= 0 ==> b.start[r] == first && first <= SectorEnd(b, r) && first <= last)
            && (r < 0 ==> forall s :: 0 <= s < k && Touches(b, s, first, last) ==> b.start[s] != first)
  {
    if k > 0 { ScanFirstMeans(b, first, last, k - 1); }
  }

  lemma {:induction false} ScanLastMeans(b: Bank, first: nat, last: nat, k: nat)
    requires k <= |b.start|
    ensures var r := ScanLast(b, first, last, k);
            && (r >= 0 ==> SectorEnd(b, r) == last && b.start[r] <= last && first <= last)
            && (r < 0 ==> forall s :: 0 <= s < k && Touches(b, s, first, last) ==> SectorEnd(b, s) != last)
  {
    if k > 0 { ScanLastMeans(b, first, last, k - 1); }
  }

  lemma {:induction false} TakenEnds(b: Bank, first: nat, last: nat)
    requires WellFormed(b) && PlanBank(b, first, last).Take?
    ensures var Take(pick, next) := PlanBank(b, first, last);
            && first == b.start[pick.first] && SectorEnd(b, pick.last) <= last
            && (SectorEnd(b, pick.last) == last || pick.last == |b.start| - 1)
            && next == if pick.last == |b.start| - 1 then (BankEnd(b) + 1) % WORD else b.start[pick.last + 1]
  {
    var n := |b.start|;
    ScanFirstMeans(b, first, last, n);
    ScanLastMeans(b, first, last, n);
    hide ScanFirst, ScanLast, WellFormed;
  }

  /** The sectors taken from one bank start at first and end at last or at the bank end. */
  lemma {:induction false} TakenSectors(b: Bank, first: nat, last: nat)
    requires WellFormed(b) && PlanBank(b, first, last).Take?
    ensures var Take(pick, next) := PlanBank(b, first, last);
            && first == b.start[pick.first] && SectorEnd(b, pick.last) <= last
            && (SectorEnd(b, pick.last) == last || pick.last == |b.start| - 1)
            && next == (SectorEnd(b, pick.last) + 1) % WORD
            && forall s :: pick.first <= s <= pick.last ==>
                 first <= b.start[s] && SectorEnd(b, s) <= SectorEnd(b, pick.last)
  {
    hide PlanBank, BankEnd;
    var Take(pick, next) := PlanBank(b, first, last);
    TakenEnds(b, first, last);
    SectorBounds(b, pick.last);
    if pick.last + 1 < |b.start| { StartIsAddress(b, pick.last + 1); }
    assert next == (SectorEnd(b, pick.last) + 1) % WORD;
    hide SectorEnd, WellFormed;
    BetweenSectors(b, pick.first, pick.last);
  }

  lemma {:induction false} BetweenSectors(b: Bank, lo: nat, hi: nat)
    requires WellFormed(b) && lo <= hi < |b.start|
    ensures forall s :: lo <= s <= hi ==> b.start[lo] <= b.start[s] && SectorEnd(b, s) <= SectorEnd(b, hi)
  {
    hide SectorEnd, WellFormed;
    forall s | lo <= s <= hi ensures b.start[lo] <= b.start[s] && SectorEnd(b, s) <= SectorEnd(b, hi) {
      if lo < s { StartsAscend(b, lo, s); }
      if s < hi { SectorsAreDisjoint(b, s, hi); }
    }
  }

  lemma {:induction false} StartIsAddress(b: Bank, s: nat)
    requires WellFormed(b) && s < |b.start|
    ensures b.start[s] < WORD
  {
    SectorBounds(b, s);
  }

  ghost predicate AllWellFormed(banks: seq<Bank>) {
    forall i :: 0 <= i < |banks| && banks[i].known ==> WellFormed(banks[i])
  }

  /** Known banks do not overlap. */
  ghost predicate Disjoint(banks: seq<Bank>)
    requires Usable(banks)
  {
    forall i, j :: 0 <= i < |banks| && 0 <= j < |banks| && i != j && banks[i].known && banks[j].known ==>
      BankEnd(banks[i]) < banks[j].start[0] || BankEnd(banks[j]) < banks[i].start[0]
  }

  /** A known bank that ends at the top of the address space, and a later one at address 0. */
  ghost predicate TopThenZero(banks: seq<Bank>, i: nat, j: nat)
    requires Usable(banks)
  {
    && i < j < |banks| && banks[i].known && banks[j].known
    && BankEnd(banks[i]) == WORD - 1 && banks[j].start[0] == 0
  }

  /** Once the running start address has wrapped to 0, nothing more is selected unless a
      bank begins there. */
  lemma {:induction false} NothingAtZero(banks: seq<Bank>, last: nat)
    requires Usable(banks) && AllWellFormed(banks)
    requires forall i :: 0 <= i < |banks| && banks[i].known ==> banks[i].start[0] > 0
    ensures var r := MakePlan(banks, 0, last);
            r.Planned? ==> forall i :: 0 <= i < |banks| ==> r.picks[i] == None
    decreases |banks|
  {
    if banks != [] {
      var b := banks[0];
      NothingAtZero(banks[1..], last);
      if b.known {
        ScanFirstMeans(b, 0, last, |b.start|);
        var sf := ScanFirst(b, 0, last, |b.start|);
        if sf > 0 { StartsAscend(b, 0, sf); }
        assert sf < 0;
      }
      assert !Choose(b, 0, last).Take?;
    }
  }

  lemma {:induction false} InRangePrepends(banks: seq<Bank>, pick: Pick, picks: seq<Pick>, first: nat, next: nat, last: nat)
    requires |banks| == |picks| + 1 && InRange(banks[1..], picks, next, last)
    requires first <= next || forall i :: 0 <= i < |picks| ==> picks[i] == None
    requires forall s: nat :: Selected([pick], 0, s) ==>
               && banks[0].known && s < |banks[0].start|
               && first <= banks[0].start[s] && SectorEnd(banks[0], s) <= last
    ensures InRange(banks, [pick] + picks, first, last)
  {
    var all := [pick] + picks;
    forall i: nat, s: nat | Selected(all, i, s)
      ensures banks[i].known && s < |banks[i].start|
      ensures first <= banks[i].start[s] && SectorEnd(banks[i], s) <= last
    {
      if i == 0 {
        assert Selected([pick], 0, s);
      } else {
        assert all[i] == picks[i - 1];
        assert Selected(picks, i - 1, s) && banks[i] == banks[1..][i - 1];
      }
    }
  }

  lemma {:induction false} TopShifts(banks: seq<Bank>, i: nat, j: nat)
    requires banks != [] && Usable(banks) && TopThenZero(banks[1..], i, j)
    ensures TopThenZero(banks, i + 1, j + 1)
  {
  }

  lemma {:induction false} PlanStaysInRange(banks: seq<Bank>, first: nat, last: nat)
    requires Usable(banks) && AllWellFormed(banks)
    requires !exists i: nat, j: nat :: TopThenZero(banks, i, j)
    ensures var r := MakePlan(banks, first, last);
            r.Planned? ==> InRange(banks, r.picks, first, last)
    decreases |banks|
  {
    var r := MakePlan(banks, first, last);
    if banks != [] && r.Planned? {
      var b, rest := banks[0], banks[1..];
      forall i: nat, j: nat ensures !TopThenZero(rest, i, j) {
        if TopThenZero(rest, i, j) { TopShifts(banks, i, j); }
      }
      var choice := Choose(b, first, last);
      if choice.Take? {
        ChoiceInRange(b, first, last);
        hide Choose, SectorEnd, BankEnd, WellFormed;
        if choice.next == 0 {
          forall k | 0 <= k < |rest| && rest[k].known ensures rest[k].start[0] > 0 {
            assert !TopThenZero(banks, 0, k + 1);
          }
          NothingAtZero(rest, last);
        }
        PlanStaysInRange(rest, choice.next, last);
        InRangePrepends(banks, choice.pick, MakePlan(rest, choice.next, last).picks, first, choice.next, last);
      } else {
        hide Choose, SectorEnd, BankEnd, WellFormed;
        PlanStaysInRange(rest, first, last);
        InRangePrepends(banks, None, MakePlan(rest, first, last).picks, first, first, last);
      }
    }
  }

  /** A bank's share of the plan, and where planning goes on: at 0 only past the top address. */
  lemma {:induction false} ChoiceInRange(b: Bank, first: nat, last: nat)
    requires b.known ==> WellFormed(b)
    requires Choose(b, first, last).Take?
    ensures var Take(pick, next) := Choose(b, first, last);
            && b.known && (first < next || next == 0) && (next == 0 ==> BankEnd(b) == WORD - 1)
            && forall s: nat :: Selected([pick], 0, s) ==>
                 s < |b.start| && first <= b.start[s] && SectorEnd(b, s) <= last
  {
    hide PlanBank, WellFormed, SectorEnd;
    var Take(pick, next) := Choose(b, first, last);
    TakenSectors(b, first, last);
    SectorBounds(b, pick.last);
    assert [pick][0] == pick;
  }

  // ---------------------------------------------------------------- when the address wraps

  /** A bank the range passes by: it lies below the range start. */
  lemma {:induction false} BelowIsSkipped(b: Bank, first: nat, last: nat)
    requires b.known && WellFormed(b) && BankEnd(b) < first <= last
    ensures Choose(b, first, last) == Skip
  {
    var n := |b.start|;
    ScanFirstMeans(b, first, last, n);
    ScanLastMeans(b, first, last, n);
    var sf, sl := ScanFirst(b, first, last, n), ScanLast(b, first, last, n);
    if sf >= 0 { SectorBounds(b, sf); }
    if sl >= 0 { SectorBounds(b, sl); }
  }

  /** A bank between range start and range end, which starts later than the range. */
  lemma {:induction false} AboveIsSkipped(b: Bank, first: nat, last: nat)
    requires b.known && WellFormed(b) && first < b.start[0] && BankEnd(b) < last
    ensures Choose(b, first, last) == Skip
  {
    var n := |b.start|;
    ScanFirstMeans(b, first, last, n);
    ScanLastMeans(b, first, last, n);
    var sf, sl := ScanFirst(b, first, last, n), ScanLast(b, first, last, n);
    if sf >= 0 { SectorBounds(b, sf); }
    if sl >= 0 { SectorBounds(b, sl); }
  }

  /** A range that starts with the bank and does not end inside it takes the whole bank. */
  lemma {:induction false} WholeBankIsTaken(b: Bank, last: nat)
    requires b.known && WellFormed(b) && BankEnd(b) <= last
    ensures Choose(b, b.start[0], last) == Take(Sectors(0, |b.start| - 1), (BankEnd(b) + 1) % WORD)
  {
    var n, first := |b.start|, b.start[0];
    SectorBounds(b, 0);
    SectorBounds(b, n - 1);
    ScanFirstMeans(b, first, last, n);
    ScanLastMeans(b, first, last, n);
    var sf, sl := ScanFirst(b, first, last, n), ScanLast(b, first, last, n);
    assert Touches(b, 0, first, last);
    if sf > 0 { StartsAscend(b, 0, sf); }
    if sl >= 0 {
      SectorBounds(b, sl);
      if sl < n - 1 { SectorsAreDisjoint(b, sl, n - 1); }
    }
    assert Touches(b, n - 1, first, last);
  }

  /** Planning up to the top address never fails, and takes the bank that starts at first. */
  lemma {:induction false} PlanToTop(banks: seq<Bank>, first: nat)
    requires Usable(banks) && AllWellFormed(banks) && Disjoint(banks) && first <= WORD - 1
    requires forall i :: 0 <= i < |banks| && banks[i].known ==>
               BankEnd(banks[i]) < WORD - 1 && (BankEnd(banks[i]) < first || first <= banks[i].start[0])
    ensures var r := MakePlan(banks, first, WORD - 1);
            && r.Planned?
            && forall j: nat :: j < |banks| && banks[j].known && banks[j].start[0] == first ==> Selected(r.picks, j, 0)
    decreases |banks|
  {
    if banks != [] {
      var rest, top := banks[1..], WORD - 1;
      var next := FirstStep(banks, first);
      RestIsDisjoint(banks);
      hide Choose, WellFormed, BankEnd, Disjoint;
      PlanToTop(rest, next);
      var r, tail := MakePlan(banks, first, top), MakePlan(rest, next, top);
      forall j: nat | j < |banks| && banks[j].known && banks[j].start[0] == first
        ensures Selected(r.picks, j, 0)
      {
        if j > 0 {
          assert banks[j] == rest[j - 1];
          assert Selected(tail.picks, j - 1, 0);
          assert r.picks[j] == tail.picks[j - 1];
        }
      }
    }
  }

  /** What PlanToTop does with the first bank, and where it goes on. */
  lemma {:induction false} FirstStep(banks: seq<Bank>, first: nat) returns (next: nat)
    requires Usable(banks) && AllWellFormed(banks) && Disjoint(banks) && first <= WORD - 1 && banks != []
    requires forall i :: 0 <= i < |banks| && banks[i].known ==>
               BankEnd(banks[i]) < WORD - 1 && (BankEnd(banks[i]) < first || first <= banks[i].start[0])
    ensures next <= WORD - 1
    ensures var b := banks[0];
            if b.known && first == b.start[0] then Choose(b, first, WORD - 1) == Take(Sectors(0, |b.start| - 1), next)
            else Choose(b, first, WORD - 1) == Skip && next == first
    ensures forall k :: 0 <= k < |banks[1..]| && banks[1..][k].known ==>
              && BankEnd(banks[1..][k]) < WORD - 1
              && (BankEnd(banks[1..][k]) < next || next <= banks[1..][k].start[0])
              && (banks[1..][k].start[0] == first ==> next == first)
  {
    var b, rest, top := banks[0], banks[1..], WORD - 1;
    next := first;
    if b.known {
      SectorBounds(b, 0);
      if BankEnd(b) < first {
        BelowIsSkipped(b, first, top);
      } else if first < b.start[0] {
        AboveIsSkipped(b, first, top);
      } else {
        WholeBankIsTaken(b, top);
        next := BankEnd(b) + 1;
      }
    }
    hide Choose, SectorEnd;
    forall k | 0 <= k < |rest| && rest[k].known
      ensures BankEnd(rest[k]) < top && (BankEnd(rest[k]) < next || next <= rest[k].start[0])
      ensures rest[k].start[0] == first ==> next == first
    {
      assert rest[k] == banks[k + 1];
      SectorBounds(rest[k], 0);
    }
  }

  lemma {:induction false} RestIsDisjoint(banks: seq<Bank>)
    requires banks != [] && Usable(banks) && Disjoint(banks)
    ensures Disjoint(banks[1..])
  {
    var rest := banks[1..];
    forall i, j | 0 <= i < |rest| && 0 <= j < |rest| && i != j && rest[i].known && rest[j].known
      ensures BankEnd(rest[i]) < rest[j].start[0] || BankEnd(rest[j]) < rest[i].start[0]
    {
      assert rest[i] == banks[i + 1] && rest[j] == banks[j + 1];
    }
  }

  /** Banks before the one that ends at the top are skipped; it is taken; planning restarts at 0. */
  lemma {:induction false} PlanWraps(banks: seq<Bank>, i: nat, j: nat)
    requires Usable(banks) && AllWellFormed(banks) && Disjoint(banks) && TopThenZero(banks, i, j)
    ensures var r := MakePlan(banks, banks[i].start[0], WORD - 1);
            r.Planned? && Selected(r.picks, j, 0)
    decreases |banks|
  {
    var b, rest, top, first := banks[0], banks[1..], WORD - 1, banks[i].start[0];
    SectorBounds(banks[i], 0);
    RestIsDisjoint(banks);
    if i == 0 {
      WholeBankIsTaken(b, top);
      forall k | 0 <= k < |rest| && rest[k].known ensures BankEnd(rest[k]) < top {
        assert rest[k] == banks[k + 1];
        SectorBounds(rest[k], 0);
      }
      hide Choose, WellFormed;
      PlanToTop(rest, 0);
      assert rest[j - 1] == banks[j];
      assert Selected(MakePlan(rest, 0, top).picks, j - 1, 0);
    } else {
      if b.known {
        SectorBounds(b, 0);
        BelowIsSkipped(b, first, top);
      }
      hide Choose, WellFormed;
      assert rest[i - 1] == banks[i] && rest[j - 1] == banks[j];
      PlanWraps(rest, i - 1, j - 1);
    }
  }

  /** For disjoint banks, every successful plan stays inside its range exactly when no bank
      that ends at the top of the address space is followed by a bank at address 0. */
  lemma {:induction false} PlansStayInRangeExactlyWhen(banks: seq<Bank>)
    requires Usable(banks) && AllWellFormed(banks) && Disjoint(banks)
    ensures (forall first: nat, last: nat :: last < WORD && MakePlan(banks, first, last).Planned? ==>
               InRange(banks, MakePlan(banks, first, last).picks, first, last))
            <==> !exists i: nat, j: nat :: TopThenZero(banks, i, j)
  {
    if i: nat, j: nat :| TopThenZero(banks, i, j) {
      var first, last := banks[i].start[0], WORD - 1;
      PlanWraps(banks, i, j);
      SectorBounds(banks[i], 0);
      SectorBounds(banks[j], 0);
      var picks := MakePlan(banks, first, last).picks;
      assert Selected(picks, j, 0);
      assert !InRange(banks, picks, first, last);
    } else {
      forall first: nat, last: nat | last < WORD && MakePlan(banks, first, last).Planned?
        ensures InRange(banks, MakePlan(banks, first, last).picks, first, last)
      {
        PlanStaysInRange(banks, first, last);
      }
    }
  }
}

/**
 The flash commands: flash_fill_sect_ranges with its arrays, flash_sect_roundb, and the
 erase and protect commands with both address forms.
 */
module FlashCommands {
  import opened FlashPlan
  import opened FlashCover
  import opened FlashRefusals

  // ---------------------------------------------------------------- rounding up

  datatype Found = NotInFlash | At(end: nat)

  /** The end of the first sector from k on that contains a. */
  function RoundInBank(b: Bank, a: nat, k: nat): Found
    requires k <= |b.start|
    decreases |b.start| - k
  {
    if k == |b.start| then NotInFlash
    else if b.start[k] <= a <= SectorEnd(b, k) then At(SectorEnd(b, k))
    else RoundInBank(b, a, k + 1)
  }

  function RoundUp(banks: seq<Bank>, a: nat): Found {
    if banks == [] then NotInFlash
    else if RoundInBank(banks[0], a, 0).At? then RoundInBank(banks[0], a, 0)
    else RoundUp(banks[1..], a)
  }

  /** Sector t of bank j contains a. */
  ghost predicate Contains(banks: seq<Bank>, j: nat, t: nat, a: nat) {
    IsSector(banks, j, t) && banks[j].start[t] <= a <= SectorEnd(banks[j], t)
  }

  lemma {:induction false} RoundInBankFinds(b: Bank, a: nat, k: nat, t: nat)
    requires WellFormed(b) && k <= t < |b.start| && b.start[t] <= a <= SectorEnd(b, t)
    ensures RoundInBank(b, a, k) == At(SectorEnd(b, t))
    decreases t - k
  {
    if k < t {
      SectorsAreDisjoint(b, k, t);
      RoundInBankFinds(b, a, k + 1, t);
    }
  }

  lemma {:induction false} RoundInBankMisses(b: Bank, a: nat, k: nat)
    requires WellFormed(b) && k <= |b.start| && BankEnd(b) < a
    ensures RoundInBank(b, a, k) == NotInFlash
    decreases |b.start| - k
  {
    if k < |b.start| {
      SectorBounds(b, k);
      RoundInBankMisses(b, a, k + 1);
    }
  }

  lemma {:induction false} RoundUpFinds(banks: seq<Bank>, j: nat, t: nat, a: nat)
    requires Contiguous(banks) && Contains(banks, j, t, a)
    ensures RoundUp(banks, a) == At(SectorEnd(banks[j], t))
    decreases |banks|
  {
    hide Contiguous, WellFormed, SectorEnd, RoundInBank;
    IsSectorMeans(banks, j, t);
    var b, rest := banks[0], banks[1..];
    if j == 0 {
      RoundInBankFinds(b, a, 0, t);
    } else {
      EarlierBankMisses(banks, j, t, a);
      RestIsContiguous(banks);
      assert rest[j - 1] == banks[j];
      RoundUpFinds(rest, j - 1, t, a);
    }
  }

  lemma {:induction false} EarlierBankMisses(banks: seq<Bank>, j: nat, t: nat, a: nat)
    requires Contiguous(banks) && Contains(banks, j, t, a) && j > 0
    ensures RoundInBank(banks[0], a, 0) == NotInFlash
  {
    hide RoundInBank, SectorEnd;
    var b := banks[0];
    if b.known {
      BanksAscend(banks, 0, j);
      SectorBounds(banks[j], t);
      RoundInBankMisses(b, a, 0);
    } else {
      NoSectors(b, a);
    }
  }

  lemma {:induction false} NoSectors(b: Bank, a: nat)
    requires b.start == []
    ensures RoundInBank(b, a, 0) == NotInFlash
  {
  }

  /** a lies in sector t of bank j, whether the bank is known or not. */
  ghost predicate Within(banks: seq<Bank>, j: nat, t: nat, a: nat) {
    j < |banks| && t < |banks[j].start| && banks[j].start[t] <= a <= SectorEnd(banks[j], t)
  }

  lemma {:induction false} RoundInBankExactly(b: Bank, a: nat, k: nat)
    requires k <= |b.start|
    ensures var r := RoundInBank(b, a, k);
            if r.At? then exists t: nat :: k <= t < |b.start| && b.start[t] <= a <= SectorEnd(b, t) && r.end == SectorEnd(b, t)
            else forall t: nat :: k <= t < |b.start| ==> !(b.start[t] <= a <= SectorEnd(b, t))
    decreases |b.start| - k
  {
    hide SectorEnd;
    if k < |b.start| { RoundInBankExactly(b, a, k + 1); }
  }

  /** Rounding finds a sector of any bank, known or not, and fails exactly when no sector holds the address. */
  lemma {:induction false} RoundUpExactly(banks: seq<Bank>, a: nat)
    ensures var r := RoundUp(banks, a);
            if r.At? then exists j: nat, t: nat :: Within(banks, j, t, a) && r.end == SectorEnd(banks[j], t)
            else forall j: nat, t: nat :: !Within(banks, j, t, a)
    decreases |banks|
  {
    hide SectorEnd, RoundInBank;
    if banks != [] {
      var rest := banks[1..];
      RoundInBankExactly(banks[0], a, 0);
      RoundUpExactly(rest, a);
      var here := RoundInBank(banks[0], a, 0);
      if here.At? {
        var t: nat :| 0 <= t < |banks[0].start| && banks[0].start[t] <= a <= SectorEnd(banks[0], t) && here.end == SectorEnd(banks[0], t);
        assert Within(banks, 0, t, a);
      } else {
        if j: nat, t: nat :| Within(rest, j, t, a) && RoundUp(rest, a).At? && RoundUp(rest, a).end == SectorEnd(rest[j], t) {
          assert Within(banks, j + 1, t, a);
        }
        if RoundUp(rest, a).NotInFlash? {
          forall j: nat, t: nat ensures !Within(banks, j, t, a) {
            if j > 0 { assert !Within(rest, j - 1, t, a); }
          }
        }
      }
    }
  }

  // ---------------------------------------------------------------- the two address forms

  /** addr_spec after number conversion: the last address of the range. */
  function LastAddress(banks: seq<Bank>, first: nat, plus: bool, arg: nat): Found {
    if plus then RoundUp(banks, (first + arg - 1) % WORD) else At(arg)
  }

  /** "start +length" from a sector start selects exactly the sectors that share an address
      with [start, start + length), which is the smallest set of whole sectors covering it. */
  lemma {:induction false} PlusLengthSelectsSmallestCover(banks: seq<Bank>, i: nat, s: nat, len: nat, j: nat, t: nat)
    requires Contiguous(banks) && IsSector(banks, i, s) && len > 0
    requires var first := banks[i].start[s];
             first + len <= WORD && Contains(banks, j, t, first + len - 1)
    ensures var first := banks[i].start[s];
            var last := LastAddress(banks, first, true, len);
            && last.At? && MakePlan(banks, first, last.end).Planned?
            && SelectsTouched(banks, MakePlan(banks, first, last.end).picks, first, first + len - 1)
  {
    hide *;
    IsSectorMeans(banks, i, s);
    ContiguousMeans(banks);
    var first, a := banks[i].start[s], banks[i].start[s] + len - 1;
    PlusForm(banks, first, len);
    RoundUpFinds(banks, j, t, a);
    NotBeforeStart(banks, i, s, j, t, a);
    IsSectorMeans(banks, j, t);
    var end := SectorEnd(banks[j], t);
    RangeIsCovered(banks, i, s, j, t);
    RoundingTouchesNothingNew(banks, j, t, first, a);
    SelectionTransfers(banks, MakePlan(banks, first, end).picks, first, end, a);
  }

  lemma {:induction false} PlusForm(banks: seq<Bank>, first: nat, len: nat)
    requires len > 0 && first + len <= WORD
    ensures LastAddress(banks, first, true, len) == RoundUp(banks, first + len - 1)
  {
  }

  lemma {:induction false} NotBeforeStart(banks: seq<Bank>, i: nat, s: nat, j: nat, t: nat, a: nat)
    requires Contiguous(banks) && IsSector(banks, i, s) && Contains(banks, j, t, a) && banks[i].start[s] <= a
    ensures !Before(j, t, i, s) && IsSector(banks, j, t)
  {
    if Before(j, t, i, s) { SectorsAscend(banks, j, t, i, s); }
  }

  lemma {:induction false} SelectionTransfers(banks: seq<Bank>, picks: seq<Pick>, first: nat, last: nat, last': nat)
    requires SelectsTouched(banks, picks, first, last)
    requires forall m: nat, u: nat :: IsSector(banks, m, u) ==>
               (Touches(banks[m], u, first, last) <==> Touches(banks[m], u, first, last'))
    ensures SelectsTouched(banks, picks, first, last')
  {
    hide Touches, Selected;
  }

  /** Up to the end of its sector, an address touches the same sectors. */
  lemma {:induction false} RoundingTouchesNothingNew(banks: seq<Bank>, j: nat, t: nat, first: nat, a: nat)
    requires Contiguous(banks) && Contains(banks, j, t, a)
    ensures forall m: nat, u: nat :: IsSector(banks, m, u) ==>
              (Touches(banks[m], u, first, SectorEnd(banks[j], t)) <==> Touches(banks[m], u, first, a))
  {
    forall m: nat, u: nat | IsSector(banks, m, u)
      ensures Touches(banks[m], u, first, SectorEnd(banks[j], t)) <==> Touches(banks[m], u, first, a)
    {
      hide SectorEnd, Contiguous;
      if Before(j, t, m, u) { SectorsAscend(banks, j, t, m, u); }
      else if Before(m, u, j, t) {
        SectorsAscend(banks, m, u, j, t);
        IsSectorMeans(banks, m, u);
        SectorBounds(banks[m], u);
      }
    }
  }

  /** What "start +length" asks for: it starts with sector s of bank i and ends inside sector t of bank j. */
  ghost predicate PlusRequest(banks: seq<Bank>, first: nat, len: nat, i: nat, s: nat, j: nat, t: nat) {
    && Contiguous(banks) && IsSector(banks, i, s) && first == banks[i].start[s]
    && len > 0 && first + len <= WORD && Contains(banks, j, t, first + len - 1)
  }

  /** The plan of such a request, as the commands use it. */
  lemma {:induction false} PlusRequestPlans(banks: seq<Bank>, first: nat, len: nat, i: nat, s: nat, j: nat, t: nat)
    requires PlusRequest(banks, first, len, i, s, j, t)
    ensures LastAddress(banks, first, true, len) == At(SectorEnd(banks[j], t))
    ensures var plan := MakePlan(banks, first, SectorEnd(banks[j], t));
            && plan.Planned? && CountSectors(plan.picks) > 0
            && SelectsTouched(banks, plan.picks, first, first + len - 1)
  {
    hide Contiguous, MakePlan, SectorEnd, LastAddress, CountSectors, Selected, SelectsTouched, RoundUp;
    IsSectorMeans(banks, i, s);
    IsSectorMeans(banks, j, t);
    ContiguousMeans(banks);
    PlusForm(banks, first, len);
    RoundUpFinds(banks, j, t, first + len - 1);
    PlusLengthSelectsSmallestCover(banks, i, s, len, j, t);
    TouchedCounts(banks, MakePlan(banks, first, SectorEnd(banks[j], t)).picks, i, s, first + len - 1);
  }

  // ---------------------------------------------------------------- the commands

  function PrependAll(done: seq<Pick>, r: Plan): Plan {
    if r.Failed? then Failed else Planned(done + r.picks)
  }

  /** s_first[i] and s_last[i] as the caller reads them. */
  ghost predicate Holds(pick: Pick, sFirst: int, sLast: int) {
    match pick
    case None => sFirst == -1
    case Sectors(first, last) => sFirst == first && sLast == last
  }

  /** flash_erase on each bank: the result code of the driver. */
  type Driver = nat -> int

  /** The driver reports success for every picked bank before n. */
  ghost predicate NoError(picks: seq<Pick>, driver: Driver, n: nat)
    requires n <= |picks|
  {
    forall k: nat :: k < n && picks[k].Sectors? ==> driver(k) == 0
  }

  /** The flags in now are those of before, with p in the sectors picked from the first n banks. */
  ghost predicate Marked(before: seq<seq<int>>, now: seq<seq<int>>, picks: seq<Pick>, n: nat, p: int) {
    && |now| == |before|
    && (forall i :: 0 <= i < |now| ==> |now[i]| == |before[i]|)
    && forall i, k :: 0 <= i < |now| && 0 <= k < |now[i]| ==>
         now[i][k] == if i < n && Selected(picks, i, k) then p else before[i][k]
  }

  lemma {:induction false} MarkOneMore(s0: seq<seq<int>>, s1: seq<seq<int>>, s2: seq<seq<int>>, picks: seq<Pick>, bank: nat, p: int)
    requires Marked(s0, s1, picks, bank, p) && |s2| == |s1| && bank < |s1|
    requires forall i :: 0 <= i < |s1| ==> |s2[i]| == |s1[i]|
    requires forall i, k :: 0 <= i < |s1| && 0 <= k < |s1[i]| ==>
               s2[i][k] == if i == bank && Selected(picks, i, k) then p else s1[i][k]
    ensures Marked(s0, s2, picks, bank + 1, p)
  {
  }

  class Flash {
    const banks: seq<Bank>
    var protect: seq<seq<int>>
    var erased: set<(nat, nat)>     // sectors handed to flash_erase, as (bank, sector)

    constructor (banks: seq<Bank>, protect: seq<seq<int>>)
      requires |protect| == |banks|
      ensures this.banks == banks && this.protect == protect && erased == {}
    {
      this.banks, this.protect, erased := banks, protect, {};
    }

    ghost predicate Valid()
      reads this
    {
      && Usable(banks) && |protect| == |banks|
      && forall i :: 0 <= i < |banks| ==> |protect[i]| == |banks[i].start|
    }

    /** The inner loop: which sectors of one bank start and end the range. */
    method ScanBank(b: Bank, first: nat, last: nat) returns (sf: int, sl: int)
      ensures sf == ScanFirst(b, first, last, |b.start|) && sl == ScanLast(b, first, last, |b.start|)
    {
      var sect := 0;
      sf, sl := -1, -1;
      while sect < |b.start|
        invariant sect <= |b.start|
        invariant sf == ScanFirst(b, first, last, sect) && sl == ScanLast(b, first, last, sect)
      {
        var end := if sect == |b.start| - 1 then BankEnd(b) else (b.start[sect + 1] - 1) % WORD;
        if !(first > end) && !(last < b.start[sect]) {
          if first == b.start[sect] { sf := sect; }
          if last == end { sl := sect; }
        }
        sect := sect + 1;
      }
    }

    /** The outer loop body for one bank. */
    method PlanOneBank(bank: nat, addrFirst: nat, addrLast: nat, sFirst: array<int>, sLast: array<int>)
      returns (rcode: int, next: nat, added: nat)
      requires Usable(banks) && sFirst != sLast && bank < |banks| && addrFirst <= addrLast
      requires sFirst.Length == |banks| && sLast.Length == |banks|
      requires sFirst[bank] == -1 && sLast[bank] == -1
      modifies sFirst, sLast
      ensures forall k :: 0 <= k < |banks| && k != bank ==> sFirst[k] == old(sFirst[k]) && sLast[k] == old(sLast[k])
      ensures match Choose(banks[bank], addrFirst, addrLast)
              case Fail => rcode == 1
              case Skip => rcode == 0 && next == addrFirst && added == 0 && Holds(None, sFirst[bank], sLast[bank])
              case Take(pick, n) =>
                rcode == 0 && next == n && added == pick.last - pick.first + 1 && Holds(pick, sFirst[bank], sLast[bank])
    {
      var b := banks[bank];
      rcode, next, added := 0, addrFirst, 0;
      if !b.known { return; }
      var bEnd, sEnd := BankEnd(b), |b.start| - 1;
      sFirst[bank], sLast[bank] := ScanBank(b, addrFirst, addrLast);
      if sFirst[bank] >= 0 {
        if sLast[bank] < 0 {
          if addrLast > bEnd {
            sLast[bank] := sEnd;
          } else {
            rcode := 1;
            return;
          }
        }
        if sLast[bank] < sFirst[bank] {
          rcode := 1;
          return;
        }
        var sect := sLast[bank];
        next := if sect == sEnd then (bEnd + 1) % WORD else b.start[sect + 1];
        added := sLast[bank] - sFirst[bank] + 1;
      } else if addrFirst >= b.start[0] && addrFirst < bEnd {
        rcode := 1;
      } else if sLast[bank] >= 0 {
        rcode := 1;
      }
    }

    method FillSectRanges(addrFirst0: nat, addrLast: nat, sFirst: array<int>, sLast: array<int>)
      returns (rcode: int, count: nat)
      requires Usable(banks) && sFirst != sLast
      requires sFirst.Length == |banks| && sLast.Length == |banks|
      modifies sFirst, sLast
      ensures rcode == 0 <==> MakePlan(banks, addrFirst0, addrLast).Planned?
      ensures rcode == 0 || rcode == 1
      ensures rcode == 0 ==>
                var picks := MakePlan(banks, addrFirst0, addrLast).picks;
                && count == CountSectors(picks)
                && forall i :: 0 <= i < |banks| ==> Holds(picks[i], sFirst[i], sLast[i])
    {
      rcode, count := 0, 0;
      for i := 0 to |banks|
        invariant forall k :: 0 <= k < i ==> sFirst[k] == -1 && sLast[k] == -1
      {
        sFirst[i] := -1;
        sLast[i] := -1;
      }
      ghost var plan := MakePlan(banks, addrFirst0, addrLast);
      ghost var done: seq<Pick> := [];
      assert banks[0..] == banks;
      var addrFirst: nat, bank: nat := addrFirst0, 0;
      while bank < |banks| && addrFirst <= addrLast
        invariant rcode == 0 && bank <= |banks| && |done| == bank
        invariant plan == PrependAll(done, MakePlan(banks[bank..], addrFirst, addrLast))
        invariant count == CountSectors(done)
        invariant forall k :: 0 <= k < bank ==> Holds(done[k], sFirst[k], sLast[k])
        invariant forall k :: bank <= k < |banks| ==> sFirst[k] == -1 && sLast[k] == -1
      {
        PlanSplits(banks[bank..], addrFirst, addrLast, done);
        assert banks[bank..][0] == banks[bank] && banks[bank..][1..] == banks[bank + 1..];
        ghost var choice := Choose(banks[bank], addrFirst, addrLast);
        hide MakePlan, Choose, CountSectors;
        var added;
        rcode, addrFirst, added := PlanOneBank(bank, addrFirst, addrLast, sFirst, sLast);
        if rcode != 0 { return; }
        ghost var pick := if choice.Take? then choice.pick else None;
        CountAppends(done, pick);
        CountOfOne(pick);
        done, count, bank := done + [pick], count + added, bank + 1;
      }
      NothingLeft(banks[bank..], addrFirst, addrLast);
      ghost var rest := MakePlan(banks[bank..], addrFirst, addrLast).picks;
      CountNothing(done, rest);
    }

    /** flash_sect_roundb: looks at every bank, known or not. */
    method FlashSectRoundb(addr: nat) returns (r: Found)
      ensures r == RoundUp(banks, addr)
    {
      var bank := 0;
      assert banks[0..] == banks;
      while bank < |banks|
        invariant bank <= |banks| && RoundUp(banks, addr) == RoundUp(banks[bank..], addr)
      {
        var b, i := banks[bank], 0;
        assert banks[bank..][0] == b && banks[bank..][1..] == banks[bank + 1..];
        while i < |b.start|
          invariant i <= |b.start| && RoundInBank(b, addr, 0) == RoundInBank(b, addr, i)
        {
          var end := if i == |b.start| - 1 then BankEnd(b) else (b.start[i + 1] - 1) % WORD;
          if addr <= end && addr >= b.start[i] { return At(end); }
          i := i + 1;
        }
        bank := bank + 1;
      }
      r := NotInFlash;
    }

    /** The range part of do_protect: 1 is a bad address, -1 a usage error. */
    method ProtectRange(p: int, first: nat, plus: bool, arg: nat) returns (rcode: int)
      requires Valid()
      modifies this`protect
      ensures Valid()
      ensures var last := LastAddress(banks, first, plus, arg);
              if last.NotInFlash? then rcode == 1 && protect == old(protect)
              else if first >= last.end then rcode == -1 && protect == old(protect)
              else
                var plan := MakePlan(banks, first, last.end);
                if plan.Planned? && CountSectors(plan.picks) > 0 then
                  && rcode == 0
                  && forall i, k :: 0 <= i < |banks| && 0 <= k < |banks[i].start| ==>
                       protect[i][k] == if Selected(plan.picks, i, k) then p else old(protect[i][k])
                else rcode == 1 && protect == old(protect)
    {
      var last := At(arg);
      if plus {
        last := FlashSectRoundb((first + arg - 1) % WORD);
      }
      if last.NotInFlash? { return 1; }
      if first >= last.end { return -1; }
      rcode := FlashSectProtect(p, first, last.end);
    }

    /** info->protect[i] = p for the picked sectors of one bank. */
    method ProtectSectors(bank: nat, from: nat, to: nat, p: int)
      requires Valid() && bank < |banks| && from <= to < |banks[bank].start|
      modifies this`protect
      ensures Valid()
      ensures forall i, k :: 0 <= i < |banks| && 0 <= k < |banks[i].start| ==>
                protect[i][k] == if i == bank && from <= k <= to then p else old(protect[i][k])
    {
      var i := from;
      while i <= to
        invariant from <= i <= to + 1 && Valid()
        invariant forall j, k :: 0 <= j < |banks| && 0 <= k < |banks[j].start| ==>
                    protect[j][k] == if j == bank && from <= k < i then p else old(protect[j][k])
      {
        protect := protect[bank := protect[bank][i := p]];
        i := i + 1;
      }
    }

    /** flash_sect_protect: the selected sectors get flag p, every other flag stays. */
    method FlashSectProtect(p: int, first: nat, last: nat) returns (rcode: int)
      requires Valid()
      modifies this`protect
      ensures Valid()
      ensures var plan := MakePlan(banks, first, last);
              if plan.Planned? && CountSectors(plan.picks) > 0 then
                && rcode == 0
                && forall i, k :: 0 <= i < |banks| && 0 <= k < |banks[i].start| ==>
                     protect[i][k] == if Selected(plan.picks, i, k) then p else old(protect[i][k])
              else rcode == 1 && protect == old(protect)
    {
      var sFirst, sLast := new int[|banks|], new int[|banks|];
      var planned;
      rcode, planned := FillSectRanges(first, last, sFirst, sLast);
      if rcode != 0 || planned == 0 { return 1; }
      ghost var picks := MakePlan(banks, first, last).picks;
      PicksAreSectors(banks, first, last);
      hide MakePlan, CountSectors, Selected, Usable;
      var bank := 0;
      assert Marked(protect, protect, picks, 0, p);
      while bank < |banks|
        invariant bank <= |banks| && Valid() && Marked(old(protect), protect, picks, bank, p)
        invariant forall i :: 0 <= i < |banks| ==> Holds(picks[i], sFirst[i], sLast[i])
      {
        ghost var before := protect;
        if banks[bank].known && sFirst[bank] >= 0 && sFirst[bank] <= sLast[bank] {
          ProtectSectors(bank, sFirst[bank], sLast[bank], p);
        }
        MarkOneMore(old(protect), before, protect, picks, bank, p);
        bank := bank + 1;
      }
    }

    /** flash_sect_erase: bank after bank until the driver reports an error. */
    method FlashSectErase(first: nat, last: nat, driver: Driver) returns (rcode: int)
      requires Valid()
      modifies this`erased
      ensures var plan := MakePlan(banks, first, last);
              if plan.Planned? && CountSectors(plan.picks) > 0 then
                && (forall x :: x in erased <==>
                      (x in old(erased) || (Selected(plan.picks, x.0, x.1) && NoError(plan.picks, driver, x.0))))
                && (rcode == 0 <==> NoError(plan.picks, driver, |banks|))
              else rcode == 1 && erased == old(erased)
    {
      var sFirst, sLast := new int[|banks|], new int[|banks|];
      var planned;
      rcode, planned := FillSectRanges(first, last, sFirst, sLast);
      if rcode != 0 || planned == 0 { return 1; }
      ghost var picks := MakePlan(banks, first, last).picks;
      PicksAreSectors(banks, first, last);
      hide MakePlan, CountSectors, Selected, Usable, NoError;
      var bank: nat := 0;
      NothingErased(erased, picks, driver);
      while bank < |banks| && rcode == 0
        invariant bank <= |banks|
        invariant forall i :: 0 <= i < |banks| ==> Holds(picks[i], sFirst[i], sLast[i])
        invariant rcode == 0 <==> NoError(picks, driver, bank)
        invariant rcode != 0 ==> bank > 0 && NoError(picks, driver, bank - 1)
        invariant ErasedUpTo(old(erased), erased, picks, bank)
      {
        ghost var before := erased;
        if sFirst[bank] >= 0 {
          var from, to := sFirst[bank], sLast[bank];
          erased := erased + set k: nat | from <= k <= to :: (bank, k);
          rcode := driver(bank);
        }
        EraseOneMore(old(erased), before, erased, picks, bank);
        NoErrorStep(picks, driver, bank);
        bank := bank + 1;
      }
      ErasedUntilError(old(erased), erased, picks, driver, bank);
    }

    /** The range part of do_flerase, with the results of ProtectRange. */
    method EraseRange(first: nat, plus: bool, arg: nat, driver: Driver) returns (rcode: int)
      requires Valid()
      modifies this`erased
      ensures var last := LastAddress(banks, first, plus, arg);
              if last.NotInFlash? then rcode == 1 && erased == old(erased)
              else if first >= last.end then rcode == -1 && erased == old(erased)
              else
                var plan := MakePlan(banks, first, last.end);
                if plan.Planned? && CountSectors(plan.picks) > 0 then
                  && (forall x :: x in erased <==>
                        (x in old(erased) || (Selected(plan.picks, x.0, x.1) && NoError(plan.picks, driver, x.0))))
                  && (rcode == 0 <==> NoError(plan.picks, driver, |banks|))
                else rcode == 1 && erased == old(erased)
    {
      var last := At(arg);
      if plus {
        last := FlashSectRoundb((first + arg - 1) % WORD);
      }
      if last.NotInFlash? { return 1; }
      if first >= last.end { return -1; }
      rcode := FlashSectErase(first, last.end, driver);
    }

    /**
     protect start +length: exactly the sectors that share an address with the range get the flag.
     The command is refused exactly when the cover is a single byte.
     */
    method ProtectPlusLength(p: int, first: nat, len: nat, ghost i: nat, ghost s: nat, ghost j: nat, ghost t: nat)
      returns (rcode: int)
      requires Valid() && PlusRequest(banks, first, len, i, s, j, t)
      modifies this`protect
      ensures Valid()
      ensures rcode == if first < SectorEnd(banks[j], t) then 0 else -1
      ensures forall m: nat, u: nat :: IsSector(banks, m, u) ==>
                protect[m][u] == if rcode == 0 && Touches(banks[m], u, first, first + len - 1) then p
                                 else old(protect[m][u])
    {
      PlusRequestPlans(banks, first, len, i, s, j, t);
      hide MakePlan, LastAddress, SectorEnd, CountSectors, Selected, Touches, PlusRequest;
      rcode := ProtectRange(p, first, true, len);
    }

    /**
     protect start end: the sectors of the range get the flag exactly when it starts with a sector and
     ends with one or behind the flash; any other range is refused and changes nothing.
     */
    method ProtectStartEnd(p: int, first: nat, last: nat) returns (rcode: int)
      requires Valid() && Contiguous(banks) && last < WORD
      modifies this`protect
      ensures Valid()
      ensures rcode == if first >= last then -1
                       else if AtStart(banks, first) && (AtEnd(banks, last) || Behind(banks, last)) then 0 else 1
      ensures forall m: nat, u: nat :: IsSector(banks, m, u) ==>
                protect[m][u] == if rcode == 0 && Touches(banks[m], u, first, last) then p else old(protect[m][u])
    {
      hide MakePlan, CountSectors, Selected, Touches, AtStart, AtEnd, Behind, Contiguous, SectorEnd;
      if first < last { SelectsExactly(banks, first, last); }
      rcode := ProtectRange(p, first, false, last);
    }

    /** erase start end: exactly such ranges reach the driver. */
    method EraseStartEnd(first: nat, last: nat, driver: Driver) returns (rcode: int)
      requires Valid() && Contiguous(banks) && last < WORD
      modifies this`erased
      ensures first >= last ==> rcode == -1 && erased == old(erased)
      ensures first < last && !(AtStart(banks, first) && (AtEnd(banks, last) || Behind(banks, last))) ==>
                rcode == 1 && erased == old(erased)
      ensures first < last && AtStart(banks, first) && (AtEnd(banks, last) || Behind(banks, last)) ==>
                && (forall m: nat, u: nat :: IsSector(banks, m, u) ==>
                      ((m, u) in erased <==>
                        ((m, u) in old(erased)
                         || (Touches(banks[m], u, first, last) && Cleared(banks, first, last, driver, m)))))
                && (rcode == 0 <==> Cleared(banks, first, last, driver, |banks|))
    {
      hide MakePlan, CountSectors, Selected, Touches, AtStart, AtEnd, Behind, Contiguous, SectorEnd, NoError, Cleared;
      if first < last { SelectsExactly(banks, first, last); }
      rcode := EraseRange(first, false, last, driver);
      ghost var r := MakePlan(banks, first, last);
      if first < last && SelectsSome(r) {
        PicksAreSectors(banks, first, last);
        ErasedMeans(banks, r.picks, first, last, driver, old(erased), erased);
        ClearedMeans(banks, r.picks, first, last, driver, |banks|);
      }
    }

    /** erase start +length: the same sectors go to the driver, bank by bank up to its first error. */
    method ErasePlusLength(first: nat, len: nat, driver: Driver, ghost i: nat, ghost s: nat, ghost j: nat, ghost t: nat)
      returns (rcode: int)
      requires Valid() && PlusRequest(banks, first, len, i, s, j, t)
      modifies this`erased
      ensures first >= SectorEnd(banks[j], t) ==> rcode == -1 && erased == old(erased)
      ensures first < SectorEnd(banks[j], t) ==>
                && (forall m: nat, u: nat :: IsSector(banks, m, u) ==>
                      ((m, u) in erased <==>
                        ((m, u) in old(erased)
                         || (Touches(banks[m], u, first, first + len - 1) && Cleared(banks, first, first + len - 1, driver, m)))))
                && (rcode == 0 <==> Cleared(banks, first, first + len - 1, driver, |banks|))
    {
      hide MakePlan, LastAddress, SectorEnd, CountSectors, Touches, NoError, Selected, Cleared, SelectsTouched;
      PlusRequestPlans(banks, first, len, i, s, j, t);
      ghost var picks, last := MakePlan(banks, first, SectorEnd(banks[j], t)).picks, first + len - 1;
      PicksAreSectors(banks, first, SectorEnd(banks[j], t));
      rcode := EraseRange(first, true, len, driver);
      if first < SectorEnd(banks[j], t) {
        ErasedMeans(banks, picks, first, last, driver, old(erased), erased);
        ClearedMeans(banks, picks, first, last, driver, |banks|);
      }
    }
  }

  /** The erased sectors of a plan, said by the range. */
  lemma {:induction false} ErasedMeans(banks: seq<Bank>, picks: seq<Pick>, first: nat, last: nat, driver: Driver,
                                       before: set<(nat, nat)>, now: set<(nat, nat)>)
    requires SelectsTouched(banks, picks, first, last)
    requires forall i :: 0 <= i < |banks| && picks[i].Sectors? ==>
               banks[i].known && picks[i].first <= picks[i].last < |banks[i].start|
    requires forall x :: x in now <==> (x in before || (Selected(picks, x.0, x.1) && NoError(picks, driver, x.0)))
    ensures forall m: nat, u: nat :: IsSector(banks, m, u) ==>
              ((m, u) in now <==>
                ((m, u) in before || (Touches(banks[m], u, first, last) && Cleared(banks, first, last, driver, m))))
  {
    hide Touches, Selected, NoError, Cleared;
    forall m: nat, u: nat | IsSector(banks, m, u)
      ensures (m, u) in now <==>
                ((m, u) in before || (Touches(banks[m], u, first, last) && Cleared(banks, first, last, driver, m)))
    {
      ClearedMeans(banks, picks, first, last, driver, m);
      assert (m, u) in now <==> ((m, u) in before || (Selected(picks, m, u) && NoError(picks, driver, m)));
    }
  }

  /** The driver reports success for every bank before n that has a sector in the range. */
  ghost predicate Cleared(banks: seq<Bank>, first: nat, last: nat, driver: Driver, n: nat) {
    forall k: nat, u: nat :: k < n && IsSector(banks, k, u) && Touches(banks[k], u, first, last) ==> driver(k) == 0
  }

  lemma {:induction false} ClearedMeans(banks: seq<Bank>, picks: seq<Pick>, first: nat, last: nat, driver: Driver, n: nat)
    requires n <= |banks| && SelectsTouched(banks, picks, first, last)
    requires forall i :: 0 <= i < |banks| && picks[i].Sectors? ==>
               banks[i].known && picks[i].first <= picks[i].last < |banks[i].start|
    ensures NoError(picks, driver, n) <==> Cleared(banks, first, last, driver, n)
  {
    hide Touches;
    if Cleared(banks, first, last, driver, n) {
      forall k: nat | k < n && picks[k].Sectors? ensures driver(k) == 0 {
        assert Selected(picks, k, picks[k].first);
      }
    }
    if NoError(picks, driver, n) {
      forall k: nat, u: nat | k < n && IsSector(banks, k, u) && Touches(banks[k], u, first, last)
        ensures driver(k) == 0
      {
        assert Selected(picks, k, u);
      }
    }
  }

  /** Banks before n have been handed to the driver. */
  ghost predicate ErasedUpTo(before: set<(nat, nat)>, now: set<(nat, nat)>, picks: seq<Pick>, n: nat) {
    forall x :: x in now <==> (x in before || (x.0 < n && Selected(picks, x.0, x.1)))
  }

  lemma {:induction false} NothingErased(s: set<(nat, nat)>, picks: seq<Pick>, driver: Driver)
    ensures ErasedUpTo(s, s, picks, 0) && NoError(picks, driver, 0)
  {
  }

  lemma {:induction false} EraseOneMore(s0: set<(nat, nat)>, s1: set<(nat, nat)>, s2: set<(nat, nat)>, picks: seq<Pick>, bank: nat)
    requires ErasedUpTo(s0, s1, picks, bank) && bank < |picks|
    requires if picks[bank].Sectors? then s2 == s1 + set k: nat | picks[bank].first <= k <= picks[bank].last :: (bank, k)
             else s2 == s1
    ensures ErasedUpTo(s0, s2, picks, bank + 1)
  {
    forall x ensures x in s2 <==> (x in s0 || (x.0 < bank + 1 && Selected(picks, x.0, x.1))) {
      if x.0 == bank && Selected(picks, bank, x.1) { assert x == (bank, x.1); }
    }
  }

  lemma {:induction false} NoErrorStep(picks: seq<Pick>, driver: Driver, bank: nat)
    requires bank < |picks|
    ensures NoError(picks, driver, bank + 1) <==>
            (NoError(picks, driver, bank) && (picks[bank].Sectors? ==> driver(bank) == 0))
  {
  }

  /** The loop stops after the last bank or right after the first error. */
  lemma {:induction false} ErasedUntilError(before: set<(nat, nat)>, now: set<(nat, nat)>, picks: seq<Pick>, driver: Driver, n: nat)
    requires n <= |picks| && ErasedUpTo(before, now, picks, n)
    requires if NoError(picks, driver, n) then n == |picks| else n > 0 && NoError(picks, driver, n - 1)
    ensures forall x :: x in now <==>
              (x in before || (Selected(picks, x.0, x.1) && NoError(picks, driver, x.0)))
    ensures NoError(picks, driver, n) <==> NoError(picks, driver, |picks|)
  {
    if !NoError(picks, driver, n) {
      forall m: nat | n <= m <= |picks| ensures !NoError(picks, driver, m) {
        var k: nat :| k < n && picks[k].Sectors? && driver(k) != 0;
      }
    }
  }

  /** Picks lie within known banks. */
  lemma {:induction false} PicksAreSectors(banks: seq<Bank>, first: nat, last: nat)
    requires Usable(banks)
    ensures var r := MakePlan(banks, first, last);
            r.Planned? ==> forall i :: 0 <= i < |banks| && r.picks[i].Sectors? ==>
              banks[i].known && r.picks[i].first <= r.picks[i].last < |banks[i].start|
    decreases |banks|
  {
    if banks != [] {
      var rest := banks[1..];
      match Choose(banks[0], first, last) {
      case Fail =>
      case Skip => PicksAreSectors(rest, first, last);
      case Take(pick, next) => PicksAreSectors(rest, next, last);
      }
    }
  }

  lemma {:induction false} CountNothing(done: seq<Pick>, rest: seq<Pick>)
    requires forall i :: 0 <= i < |rest| ==> rest[i] == None
    ensures CountSectors(done + rest) == CountSectors(done)
    decreases |done| + |rest|
  {
    if done != [] {
      assert (done + rest)[1..] == done[1..] + rest;
      CountNothing(done[1..], rest);
    } else if rest != [] {
      assert done + rest == rest && done + rest[1..] == rest[1..];
      CountNothing(done, rest[1..]);
    } else {
      assert done + rest == [];
    }
  }

  lemma {:induction false} CountOfOne(pick: Pick)
    ensures CountSectors([pick]) == if pick.Sectors? && pick.first <= pick.last then pick.last - pick.first + 1 else 0
  {
    assert [pick][1..] == [];
  }

  lemma {:induction false} CountAppends(done: seq<Pick>, pick: Pick)
    ensures CountSectors(done + [pick]) == CountSectors(done) + CountSectors([pick])
  {
    if done == [] {
      assert [] + [pick] == [pick];
    } else {
      assert (done + [pick])[1..] == done[1..] + [pick];
      CountAppends(done[1..], pick);
    }
  }

  /** One turn of the planning loop, seen from the whole plan. */
  lemma {:induction false} PlanSplits(banks: seq<Bank>, first: nat, last: nat, done: seq<Pick>)
    requires Usable(banks) && banks != []
    ensures PrependAll(done, MakePlan(banks, first, last)) ==
            match Choose(banks[0], first, last)
            case Fail => Failed
            case Skip => PrependAll(done + [None], MakePlan(banks[1..], first, last))
            case Take(pick, next) => PrependAll(done + [pick], MakePlan(banks[1..], next, last))
  {
    match Choose(banks[0], first, last) {
    case Fail =>
    case Skip =>
      var r := MakePlan(banks[1..], first, last);
      if r.Planned? { assert done + ([None] + r.picks) == done + [None] + r.picks; }
    case Take(pick, next) =>
      var r := MakePlan(banks[1..], next, last);
      if r.Planned? { assert done + ([pick] + r.picks) == done + [pick] + r.picks; }
    }
  }
}

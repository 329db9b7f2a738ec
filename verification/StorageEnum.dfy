/**
 Device enumeration of the API: API_dev_enum walks over the network device and five groups of
 storage devices, one device per call, steered by a cookie that the caller hands back and by the
 started and ended flags of each group.
 */
module StorageEnum {
  const GROUPS := 5             // ENUM_IDE .. ENUM_SATA
  const TYP_NET := 1            // DEV_TYP_NET

  /** What blk_get_dev finds; an instance of unknown device type is not active. */
  datatype Device = Missing | Inactive | Active(lba: nat, blksz: nat)

  /** The address of the device that the last call returned. */
  datatype Cookie = Null | Net | Dev(group: nat, index: nat)

  datatype Spec = Spec(maxDev: nat, started: bool, ended: bool, typ: nat)

  /** The hardware, as the calls below find it. */
  datatype Board = Board(hasNet: bool, devices: (nat, nat) -> Device, maxDev: seq<nat>, typ: seq<nat>)

  /** A group that is not configured has no name under which a device could be found. */
  ghost predicate WellFormed(b: Board) {
    && |b.maxDev| == GROUPS && |b.typ| == GROUPS
    && forall g :: 0 <= g < GROUPS && b.maxDev[g] == 0 ==> b.devices(g, 0) == Missing
  }

  /** The result of blk_get_dev, as a cookie. */
  function Handle(b: Board, g: nat, i: nat): Cookie {
    if b.devices(g, i).Missing? then Null else Dev(g, i)
  }

  // ---------------------------------------------------------------- the listing

  predicate Present(b: Board, g: nat, i: nat)
    requires g < |b.maxDev|
  {
    i < b.maxDev[g] && b.devices(g, i).Active?
  }

  /** The devices of group g from index i up to the first that is missing or not active. */
  function Leading(b: Board, g: nat, i: nat): (l: seq<Cookie>)
    requires g < |b.maxDev|
    decreases b.maxDev[g] - i
  {
    if Present(b, g, i) then [Dev(g, i)] + Leading(b, g, i + 1) else []
  }

  function FromGroup(b: Board, g: nat): seq<Cookie>
    requires g <= |b.maxDev|
    decreases |b.maxDev| - g
  {
    if g == |b.maxDev| then [] else Leading(b, g, 0) + FromGroup(b, g + 1)
  }

  /** What calls that start with cookie c return before they return null. */
  function After(b: Board, c: Cookie): seq<Cookie>
    requires c.Dev? ==> c.group < |b.maxDev|
  {
    match c
    case Null => (if b.hasNet then [Net] else []) + FromGroup(b, 0)
    case Net => FromGroup(b, 0)
    case Dev(g, i) => Leading(b, g, i + 1) + FromGroup(b, g + 1)
  }

  function Listing(b: Board): seq<Cookie> { After(b, Null) }

  /** The first storage device of the groups from g on. */
  function FirstFrom(b: Board, g: nat): Cookie
    requires g <= |b.maxDev|
    decreases |b.maxDev| - g
  {
    if g == |b.maxDev| then Null
    else if Present(b, g, 0) then Dev(g, 0)
    else FirstFrom(b, g + 1)
  }

  function Successor(b: Board, c: Cookie): Cookie
    requires c.Dev? ==> c.group < |b.maxDev|
  {
    match c
    case Null => if b.hasNet then Net else FirstFrom(b, 0)
    case Net => FirstFrom(b, 0)
    case Dev(g, i) => if Present(b, g, i + 1) then Dev(g, i + 1) else FirstFrom(b, g + 1)
  }

  lemma {:induction false} FirstFromStarts(b: Board, g: nat)
    requires g <= |b.maxDev|
    ensures var c := FirstFrom(b, g);
            if c == Null then FromGroup(b, g) == []
            else c.Dev? && g <= c.group < |b.maxDev| && Present(b, c.group, c.index)
                 && FromGroup(b, g) == [c] + After(b, c)
    decreases |b.maxDev| - g
  {
    if g < |b.maxDev| {
      if Present(b, g, 0) {
        assert Leading(b, g, 0) == [Dev(g, 0)] + Leading(b, g, 1);
      } else {
        FirstFromStarts(b, g + 1);
        assert FromGroup(b, g) == FromGroup(b, g + 1);
      }
    }
  }

  /** One call takes the head off what is still to come. */
  lemma {:induction false} SuccessorIsHead(b: Board, c: Cookie)
    requires c.Dev? ==> c.group < |b.maxDev|
    ensures var s := Successor(b, c);
            && (s.Dev? ==> s.group < |b.maxDev| && Present(b, s.group, s.index))
            && After(b, c) == if s == Null then [] else [s] + After(b, s)
  {
    match c {
      case Null =>
        FirstFromStarts(b, 0);
        if !b.hasNet { assert After(b, c) == FromGroup(b, 0); }
      case Net =>
        FirstFromStarts(b, 0);
      case Dev(g, i) =>
        FirstFromStarts(b, g + 1);
        if Present(b, g, i + 1) {
          assert Leading(b, g, i + 1) == [Dev(g, i + 1)] + Leading(b, g, i + 2);
          assert After(b, c) == [Dev(g, i + 1)] + After(b, Dev(g, i + 1));
        } else {
          assert After(b, c) == FromGroup(b, g + 1);
        }
    }
  }

  // ---------------------------------------------------------------- what the listing is worth

  /** The order of the storage devices; the network device comes before all of them. */
  predicate Before(c: Cookie, d: Cookie) {
    d.Dev? && (c.Net? || (c.Dev? && (c.group < d.group || (c.group == d.group && c.index < d.index))))
  }

  ghost predicate Increasing(l: seq<Cookie>) {
    forall i, j :: 0 <= i < j < |l| ==> Before(l[i], l[j])
  }

  /** All of l are active devices of groups from g on, in group g from index i on. */
  ghost predicate ActiveFrom(b: Board, l: seq<Cookie>, g: nat, i: nat) {
    forall k :: 0 <= k < |l| ==>
      && l[k].Dev? && l[k].group < |b.maxDev| && Present(b, l[k].group, l[k].index)
      && (l[k].group > g || (l[k].group == g && l[k].index >= i))
  }

  lemma {:induction false} LeadingOrdered(b: Board, g: nat, i: nat)
    requires g < |b.maxDev|
    ensures Increasing(Leading(b, g, i)) && ActiveFrom(b, Leading(b, g, i), g, i)
    ensures forall k :: 0 <= k < |Leading(b, g, i)| ==> Leading(b, g, i)[k] == Dev(g, i + k)
    ensures |Leading(b, g, i)| <= if i < b.maxDev[g] then b.maxDev[g] - i else 0
    decreases b.maxDev[g] - i
  {
    if Present(b, g, i) {
      LeadingOrdered(b, g, i + 1);
      var rest := Leading(b, g, i + 1);
      var l := Leading(b, g, i);
      forall k | 0 <= k < |l| ensures l[k] == Dev(g, i + k) && Present(b, g, i + k) {
        if k > 0 { assert l[k] == rest[k - 1]; }
      }
    }
  }

  function Sum(s: seq<nat>): nat { if s == [] then 0 else s[0] + Sum(s[1..]) }

  lemma {:induction false} FromGroupOrdered(b: Board, g: nat)
    requires g <= |b.maxDev|
    ensures Increasing(FromGroup(b, g)) && ActiveFrom(b, FromGroup(b, g), g, 0)
    ensures |FromGroup(b, g)| <= Sum(b.maxDev[g..])
    decreases |b.maxDev| - g
  {
    if g < |b.maxDev| {
      LeadingOrdered(b, g, 0);
      FromGroupOrdered(b, g + 1);
      assert b.maxDev[g..][1..] == b.maxDev[g + 1..];
      IncreasingAppends(b, Leading(b, g, 0), FromGroup(b, g + 1), g);
    }
  }

  lemma {:induction false} IncreasingAppends(b: Board, l: seq<Cookie>, m: seq<Cookie>, g: nat)
    requires Increasing(l) && Increasing(m) && ActiveFrom(b, l, g, 0) && ActiveFrom(b, m, g + 1, 0)
    requires forall k :: 0 <= k < |l| ==> l[k].group == g
    ensures Increasing(l + m) && ActiveFrom(b, l + m, g, 0)
  {
  }

  /**
   The listing of a board: in strictly increasing order, so nothing is repeated; active storage
   devices only, after the network device; and no longer than the groups have room for.
   */
  lemma {:induction false} ListingIsSound(b: Board)
    ensures Increasing(Listing(b))
    ensures forall k :: 0 <= k < |Listing(b)| ==>
              if Listing(b)[k].Net? then k == 0 && b.hasNet
              else && Listing(b)[k].Dev? && Listing(b)[k].group < |b.maxDev|
                   && Present(b, Listing(b)[k].group, Listing(b)[k].index)
    ensures |Listing(b)| <= (if b.hasNet then 1 else 0) + Sum(b.maxDev)
    ensures b.hasNet <==> Net in Listing(b)
  {
    FromGroupOrdered(b, 0);
    assert b.maxDev[0..] == b.maxDev;
    var s := FromGroup(b, 0);
    var l := Listing(b);
    if b.hasNet {
      assert l[0] == Net;
      forall k | 0 < k < |l| ensures l[k] == s[k - 1] { }
    } else {
      assert l == s;
    }
  }

  /** The active devices of every group come first in it. */
  ghost predicate PrefixesActive(b: Board) {
    forall g: nat, i: nat, j: nat :: g < |b.maxDev| && j < i && Present(b, g, i) ==> Present(b, g, j)
  }

  lemma {:induction false} LeadingHolds(b: Board, g: nat, i: nat, k: nat)
    requires g < |b.maxDev|
    ensures Dev(g, k) in Leading(b, g, i) <==> i <= k && forall j :: i <= j <= k ==> Present(b, g, j)
    decreases b.maxDev[g] - i
  {
    if Present(b, g, i) {
      LeadingHolds(b, g, i + 1, k);
    } else if i <= k {
      assert !(forall j :: i <= j <= k ==> Present(b, g, j));
    }
  }

  lemma {:induction false} FromGroupHolds(b: Board, g: nat, h: nat, k: nat)
    requires g <= h < |b.maxDev|
    ensures Dev(h, k) in FromGroup(b, g) <==> forall j :: 0 <= j <= k ==> Present(b, h, j)
    decreases |b.maxDev| - g
  {
    hide Leading, Present;
    var l, r := Leading(b, g, 0), FromGroup(b, g + 1);
    assert FromGroup(b, g) == l + r;
    if g < h {
      NotAmong(b, g, h, k);
      FromGroupHolds(b, g + 1, h, k);
    } else {
      NotLater(b, h, k);
      LeadingHolds(b, h, 0, k);
    }
  }

  lemma {:induction false} NotAmong(b: Board, g: nat, h: nat, k: nat)
    requires g < h && g < |b.maxDev|
    ensures Dev(h, k) !in Leading(b, g, 0)
  {
    hide Leading;
    LeadingOrdered(b, g, 0);
  }

  lemma {:induction false} NotLater(b: Board, h: nat, k: nat)
    requires h < |b.maxDev|
    ensures Dev(h, k) !in FromGroup(b, h + 1)
  {
    hide FromGroup, Increasing;
    FromGroupOrdered(b, h + 1);
  }

  /** The listing holds every active device exactly when the active ones lead their groups. */
  lemma {:induction false} CompleteExactlyForPrefixes(b: Board)
    ensures (forall g: nat, i: nat :: g < |b.maxDev| && Present(b, g, i) ==> Dev(g, i) in Listing(b)) <==> PrefixesActive(b)
  {
    forall g: nat, i: nat | g < |b.maxDev|
      ensures Dev(g, i) in Listing(b) <==> forall j :: 0 <= j <= i ==> Present(b, g, j)
    {
      FromGroupHolds(b, 0, g, i);
    }
    if forall g: nat, i: nat :: g < |b.maxDev| && Present(b, g, i) ==> Dev(g, i) in Listing(b) {
      forall g: nat, i: nat, j: nat | g < |b.maxDev| && j < i && Present(b, g, i) ensures Present(b, g, j) {
        assert Dev(g, i) in Listing(b);
      }
    }
  }

  // ---------------------------------------------------------------- the code

  /** The storage device that follows cookie c. */
  function NextStorage(b: Board, c: Cookie): Cookie
    requires c.Dev? ==> c.group < |b.maxDev|
  {
    if c.Dev? then Successor(b, c) else FirstFrom(b, 0)
  }

  /** A cookie that dev_stor_type finds in group g, active or not. */
  predicate Owns(b: Board, g: nat, c: Cookie)
    requires g < |b.maxDev|
  {
    c.Dev? && c.group == g && c.index < b.maxDev[g] && Handle(b, g, c.index) == c
  }

  /** struct device_info, the caller's record. */
  class DeviceInfo {
    var cookie: Cookie
    var typ: nat
    var blockCount: nat
    var blockSize: nat

    constructor ()
      ensures cookie == Null
    {
      cookie, typ, blockCount, blockSize := Null, 0, 0, 0;
    }
  }

  /** Groups whose enumeration has not begun. */
  ghost predicate Untouched(specs: seq<Spec>, g: nat) {
    forall k :: g <= k < |specs| ==> !specs[k].started && !specs[k].ended
  }

  ghost predicate AllStarted(specs: seq<Spec>, g: nat) {
    forall k :: 0 <= k < g && k < |specs| ==> specs[k].started
  }

  ghost predicate SpecsOf(specs: seq<Spec>, b: Board) {
    && |specs| == GROUPS && WellFormed(b)
    && forall g :: 0 <= g < GROUPS ==> specs[g].maxDev == b.maxDev[g] && specs[g].typ == b.typ[g]
  }

  /** The flags between two calls, when the last one returned cookie c. */
  ghost predicate Consistent(specs: seq<Spec>, b: Board, c: Cookie) {
    && SpecsOf(specs, b)
    && match c
       case Null => true
       case Net => Untouched(specs, 0)
       case Dev(g, i) =>
         && g < GROUPS && Present(b, g, i)
         && AllStarted(specs, g + 1) && Untouched(specs, g + 1)
         && (specs[g].ended <==> i + 1 >= b.maxDev[g])
  }

  /** The flags inside a call, before a group that was never enumerated. */
  ghost predicate Fresh(specs: seq<Spec>, b: Board, g: nat, c: Cookie) {
    && SpecsOf(specs, b) && g <= GROUPS
    && AllStarted(specs, g) && Untouched(specs, g)
    && (c.Dev? ==> c.group < g)
  }

  /** What dev_enum_stor does to the flags s and the cookie c, for any of them. */
  ghost predicate GroupStep(b: Board, g: nat, s: seq<Spec>, c: Cookie, s': seq<Spec>, c': Cookie, found: bool)
    requires g < GROUPS && SpecsOf(s, b)
  {
    && SpecsOf(s', b) && (forall k :: 0 <= k < GROUPS && k != g ==> s'[k] == s[k])
    && if c == Null || (!Owns(b, g, c) && !s[g].started && !s[g].ended) then
         && found == Present(b, g, 0) && c' == Handle(b, g, 0)
         && s'[g].started && (s'[g].ended <==> c' == Null || 1 >= b.maxDev[g])
       else if !Owns(b, g, c) then
         !found && c' == c && s'[g].started == s[g].started
       else if s[g].ended then
         !found && c' == c && s' == s
       else
         && found == Present(b, g, c.index + 1)
         && c' == (if c.index + 1 < b.maxDev[g] then Handle(b, g, c.index + 1) else Null)
         && s'[g].started == s[g].started
         && (s'[g].ended <==> c' == Null || c.index + 2 >= b.maxDev[g])
  }

  /** Where a walk over the groups that began with cookie c0 stands before group g. */
  ghost predicate Walking(b: Board, s: seq<Spec>, c0: Cookie, g: nat, c: Cookie) {
    if c0.Dev? && g <= c0.group then c == c0 && Consistent(s, b, c0)
    else
      && Fresh(s, b, g, c) && (c0.Dev? ==> c0.group < GROUPS)
      && NextStorage(b, c0) == FirstFrom(b, g)
  }

  lemma {:induction false} WalkStep(b: Board, c0: Cookie, g: nat, s: seq<Spec>, c: Cookie, s': seq<Spec>, c': Cookie, found: bool)
    requires g < GROUPS && SpecsOf(s, b) && Walking(b, s, c0, g, c) && GroupStep(b, g, s, c, s', c', found)
    ensures c0.Dev? ==> c0.group < GROUPS
    ensures if found then Consistent(s', b, c') && c' == NextStorage(b, c0) else Walking(b, s', c0, g + 1, c')
  {
    if c0.Dev? && g < c0.group {
      StepBefore(b, c0, g, s, s', c', found);
    } else if c0.Dev? && g == c0.group {
      StepInside(b, c0, s, s', c', found);
    } else {
      StepFresh(b, c0, g, s, c, s', c', found);
    }
  }

  lemma {:induction false} WalkStarts(b: Board, s: seq<Spec>, c: Cookie)
    requires if c.Dev? then Consistent(s, b, c) else Fresh(s, b, 0, c)
    ensures Walking(b, s, c, 0, c) && SpecsOf(s, b) && (c.Dev? ==> c.group < |b.maxDev|)
  {
  }

  lemma {:induction false} WalkEnds(b: Board, s: seq<Spec>, c0: Cookie, c: Cookie)
    requires Walking(b, s, c0, GROUPS, c)
    ensures c0.Dev? ==> c0.group < |b.maxDev|
    ensures NextStorage(b, c0) == Null
  {
  }

  lemma {:induction false} GroupStepKeeps(b: Board, g: nat, s: seq<Spec>, c: Cookie, s': seq<Spec>, c': Cookie, found: bool)
    requires g < GROUPS && SpecsOf(s, b) && GroupStep(b, g, s, c, s', c', found)
    ensures SpecsOf(s', b) && |b.maxDev| == GROUPS
  {
  }

  lemma {:induction false} StepBefore(b: Board, c0: Cookie, g: nat, s: seq<Spec>, s': seq<Spec>, c': Cookie, found: bool)
    requires c0.Dev? && g < c0.group < GROUPS && Consistent(s, b, c0) && GroupStep(b, g, s, c0, s', c', found)
    ensures !found && Walking(b, s', c0, g + 1, c')
  {
    hide FirstFrom;
  }

  lemma {:induction false} StepInside(b: Board, c0: Cookie, s: seq<Spec>, s': seq<Spec>, c': Cookie, found: bool)
    requires c0.Dev? && c0.group < GROUPS && Consistent(s, b, c0) && GroupStep(b, c0.group, s, c0, s', c', found)
    ensures if found then Consistent(s', b, c') && c' == NextStorage(b, c0) else Walking(b, s', c0, c0.group + 1, c')
  {
    hide FirstFrom;
  }

  lemma {:induction false} StepFresh(b: Board, c0: Cookie, g: nat, s: seq<Spec>, c: Cookie, s': seq<Spec>, c': Cookie, found: bool)
    requires g < GROUPS && Fresh(s, b, g, c) && GroupStep(b, g, s, c, s', c', found)
    requires c0.Dev? ==> c0.group < g
    requires NextStorage(b, c0) == FirstFrom(b, g)
    ensures if found then Consistent(s', b, c') && c' == NextStorage(b, c0) else Walking(b, s', c0, g + 1, c')
  {
    hide NextStorage;
  }

  class Enumerator {
    const board: Board
    var specs: seq<Spec>

    constructor (board: Board)
      requires WellFormed(board)
      ensures this.board == board && Consistent(specs, board, Null)
    {
      this.board := board;
      specs := seq(GROUPS, (g: nat) requires g < GROUPS && |board.maxDev| == GROUPS && |board.typ| == GROUPS =>
        Spec(board.maxDev[g], false, false, board.typ[g]));
    }

    /** dev_stor_type: the group of a cookie, or GROUPS. */
    method DevStorType(c: Cookie) returns (g: nat)
      requires SpecsOf(specs, board) && c != Null
      ensures g <= GROUPS
      ensures forall k: nat :: k < GROUPS ==> (Owns(board, k, c) <==> k == g)
    {
      g := 0;
      while g < GROUPS
        invariant g <= GROUPS
        invariant forall k: nat, j: nat :: k < g && j < specs[k].maxDev ==> c != Handle(board, k, j)
      {
        var j: nat := 0;
        while j < specs[g].maxDev
          invariant j <= specs[g].maxDev
          invariant forall m: nat :: m < j ==> c != Handle(board, g, m)
        {
          if c == Handle(board, g, j) { return; }
          j := j + 1;
        }
        g := g + 1;
      }
    }

    /** Fills in the record for a device instance that exists; only an active one counts as found. */
    method Describe(g: nat, i: nat, di: DeviceInfo) returns (found: bool)
      requires SpecsOf(specs, board) && g < GROUPS && di.cookie == Dev(g, i) == Handle(board, g, i)
      modifies di
      ensures found == board.devices(g, i).Active? && di.cookie == Dev(g, i)
      ensures found ==> Described(di, Dev(g, i))
    {
      found := true;
      di.typ := specs[g].typ;
      match board.devices(g, i) {
        case Active(lba, blksz) =>
          di.blockCount, di.blockSize := lba, blksz;
        case _ =>
          found := false;
      }
    }

    /** The record tells the type and the size of the device. */
    ghost predicate Described(di: DeviceInfo, c: Cookie)
      reads di
      requires WellFormed(board)
    {
      match c
      case Null => true
      case Net => di.typ == TYP_NET
      case Dev(g, i) =>
        && g < GROUPS && board.devices(g, i).Active? && di.typ == board.typ[g]
        && board.devices(g, i) == Active(di.blockCount, di.blockSize)
    }

    /** dev_stor_get with first set. */
    method GetFirst(g: nat, di: DeviceInfo) returns (found: bool, more: bool)
      requires SpecsOf(specs, board) && g < GROUPS
      modifies di
      ensures di.cookie == Handle(board, g, 0)
      ensures found == Present(board, g, 0)
      ensures more == (di.cookie != Null && 1 < board.maxDev[g])
      ensures found ==> Described(di, di.cookie)
    {
      di.cookie := Handle(board, g, 0);
      if di.cookie == Null { return false, false; }
      more := 1 < specs[g].maxDev;
      found := Describe(g, 0, di);
    }

    /** dev_stor_get without first: the device after the cookie's. */
    method GetNext(g: nat, di: DeviceInfo) returns (found: bool, more: bool)
      requires SpecsOf(specs, board) && g < GROUPS
      requires Owns(board, g, di.cookie)
      modifies di
      ensures var i := old(di.cookie.index) + 1;
              && di.cookie == (if i < board.maxDev[g] then Handle(board, g, i) else Null)
              && found == Present(board, g, i)
              && more == (di.cookie != Null && i + 1 < board.maxDev[g])
      ensures found ==> Described(di, di.cookie)
    {
      found, more := false, false;
      var i: nat := 0;
      while i < specs[g].maxDev
        invariant i <= old(di.cookie.index) && di.cookie == old(di.cookie) && !found && !more
      {
        if di.cookie == Handle(board, g, i) {
          i := i + 1;
          if i >= specs[g].maxDev {
            di.cookie := Null;
            return;
          }
          di.cookie := Handle(board, g, i);
          if di.cookie == Null { return; }
          more := i + 1 < specs[g].maxDev;
          found := Describe(g, i, di);
          return;
        }
        i := i + 1;
      }
    }

    method SetStarted(g: nat)
      requires g < |specs|
      modifies this
      ensures specs == old(specs)[g := old(specs)[g].(started := true)]
    {
      specs := specs[g := specs[g].(started := true)];
    }

    method SetEnded(g: nat, ended: bool)
      requires g < |specs|
      modifies this
      ensures specs == old(specs)[g := old(specs)[g].(ended := ended)]
    {
      specs := specs[g := specs[g].(ended := ended)];
    }

    /** dev_enum_stor, for any cookie and any flags. */
    method DevEnumStor(g: nat, di: DeviceInfo) returns (found: bool)
      requires SpecsOf(specs, board) && g < GROUPS
      modifies this, di
      ensures GroupStep(board, g, old(specs), old(di.cookie), specs, di.cookie, found)
      ensures found ==> Described(di, di.cookie) && Owns(board, g, di.cookie) && Present(board, g, di.cookie.index)
    {
      var more := false;
      found := false;
      if di.cookie == Null {
        found, more := GetFirst(g, di);
        SetStarted(g);
      } else {
        var group := DevStorType(di.cookie);
        if group == g {
          if specs[g].ended { return; }
          found, more := GetNext(g, di);
        } else {
          if specs[g].ended { return; }
          if !specs[g].started {
            SetStarted(g);
            found, more := GetFirst(g, di);
          }
        }
      }
      SetEnded(g, !more);
    }

    /** dev_enum_reset */
    method DevEnumReset()
      requires SpecsOf(specs, board)
      modifies this
      ensures SpecsOf(specs, board) && Untouched(specs, 0)
    {
      var i := 0;
      while i < GROUPS
        invariant 0 <= i <= GROUPS && SpecsOf(specs, board)
        invariant forall k :: 0 <= k < i ==> !specs[k].started && !specs[k].ended
      {
        specs := specs[i := specs[i].(started := false, ended := false)];
        i := i + 1;
      }
    }

    /** dev_enum_storage; with flags that fit the cookie, the next storage device. */
    method DevEnumStorage(di: DeviceInfo) returns (found: bool)
      requires SpecsOf(specs, board)
      modifies this, di
      ensures SpecsOf(specs, board)
      ensures found ==> di.cookie.Dev? && di.cookie.group < GROUPS && Present(board, di.cookie.group, di.cookie.index)
      ensures found ==> Described(di, di.cookie)
      ensures old(Entering(di.cookie)) ==>
                if found then Consistent(specs, board, di.cookie) && di.cookie == NextStorage(board, old(di.cookie))
                else NextStorage(board, old(di.cookie)) == Null
    {
      ghost var c0, entering := di.cookie, Entering(di.cookie);
      var g := 0;
      if entering { WalkStarts(board, specs, c0); }
      hide Described, Walking, Consistent, NextStorage, SpecsOf;
      while g < GROUPS
        invariant 0 <= g <= GROUPS && SpecsOf(specs, board) && (entering ==> Walking(board, specs, c0, g, di.cookie))
      {
        ghost var s, c := specs, di.cookie;
        found := DevEnumStor(g, di);
        GroupStepKeeps(board, g, s, c, specs, di.cookie, found);
        if entering { WalkStep(board, c0, g, s, c, specs, di.cookie, found); }
        if found { return; }
        g := g + 1;
      }
      if entering { WalkEnds(board, specs, c0, di.cookie); }
      found := false;
    }

    /** The flags fit the cookie: behind a reset, or behind the call that returned it. */
    ghost predicate Entering(c: Cookie)
      reads this
    {
      if c.Dev? then Consistent(specs, board, c) else Fresh(specs, board, 0, c)
    }

    /** dev_enum_net */
    method DevEnumNet(di: DeviceInfo) returns (found: bool)
      modifies di
      ensures found == board.hasNet && di.cookie == (if found then Net else Null) && di.typ == TYP_NET
    {
      di.typ := TYP_NET;
      di.cookie := if board.hasNet then Net else Null;
      found := di.cookie != Null;
    }

    /**
     API_dev_enum: whatever the cookie, the call returns an active device or null; handed back the
     cookie of the last call, it returns the successor and keeps the flags consistent.
     */
    method ApiDevEnum(di: DeviceInfo)
      requires SpecsOf(specs, board)
      modifies this, di
      ensures SpecsOf(specs, board) && Described(di, di.cookie)
      ensures di.cookie.Dev? ==> di.cookie.group < GROUPS && Present(board, di.cookie.group, di.cookie.index)
      ensures old(Consistent(specs, board, di.cookie)) ==>
                Consistent(specs, board, di.cookie) && di.cookie == Successor(board, old(di.cookie))
    {
      if di.cookie == Null {
        DevEnumReset();
        var net := DevEnumNet(di);
        if net { return; }
      }
      var found := DevEnumStorage(di);
      if !found { di.cookie := Null; }
    }

    /** A caller's loop from the reset to the null cookie: the whole listing, and one call more than it is long. */
    method EnumerateAll(di: DeviceInfo) returns (seen: seq<Cookie>, calls: nat)
      requires SpecsOf(specs, board) && di.cookie == Null
      modifies this, di
      ensures seen == Listing(board) && calls == |seen| + 1
      ensures Consistent(specs, board, di.cookie) && di.cookie == Null
    {
      hide *;
      seen := [];
      ConsistentGroup(specs, board, Null);
      ListingStarts(board);
      ApiDevEnum(di);
      calls := 1;
      while di.cookie != Null
        invariant Consistent(specs, board, di.cookie) && calls == |seen| + 1
        invariant Seen(board, seen, di.cookie)
        decreases |Listing(board)| - |seen|
      {
        ConsistentGroup(specs, board, di.cookie);
        SeenGrows(board, seen, di.cookie);
        seen := seen + [di.cookie];
        ApiDevEnum(di);
        calls := calls + 1;
      }
      SeenEnds(board, seen);
    }
  }

  /** seen and the cookie c are a beginning of the listing. */
  ghost predicate Seen(b: Board, seen: seq<Cookie>, c: Cookie) {
    && (c.Dev? ==> c.group < |b.maxDev|)
    && Listing(b) == seen + (if c == Null then [] else [c] + After(b, c))
  }

  lemma {:induction false} ListingStarts(b: Board)
    ensures Seen(b, [], Successor(b, Null))
  {
    SuccessorIsHead(b, Null);
    hide After, Successor;
    assert [] + After(b, Null) == After(b, Null);
  }

  lemma {:induction false} SeenGrows(b: Board, seen: seq<Cookie>, c: Cookie)
    requires c != Null && Seen(b, seen, c)
    ensures Seen(b, seen + [c], Successor(b, c)) && |seen| < |Listing(b)|
  {
    hide After, Successor, Listing;
    SuccessorIsHead(b, c);
    MoveOne(seen, c, After(b, c));
    var s := Successor(b, c);
    assert After(b, c) == if s == Null then [] else [s] + After(b, s);
  }

  lemma {:induction false} MoveOne(a: seq<Cookie>, c: Cookie, rest: seq<Cookie>)
    ensures a + ([c] + rest) == a + [c] + rest && |a + ([c] + rest)| > |a|
  {
  }

  lemma {:induction false} SeenEnds(b: Board, seen: seq<Cookie>)
    requires Seen(b, seen, Null)
    ensures seen == Listing(b)
  {
    assert seen + [] == seen;
  }

  lemma {:induction false} ConsistentGroup(specs: seq<Spec>, b: Board, c: Cookie)
    ensures SpecsOf(specs, b) <==> Consistent(specs, b, Null)
    ensures Consistent(specs, b, c) ==> SpecsOf(specs, b)
    ensures Consistent(specs, b, c) && c.Dev? ==> c.group < |b.maxDev|
  {
  }
}

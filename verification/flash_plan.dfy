/** NOR flash: banks of sectors, and the sectors that an address range selects. */
module FlashPlan {

  const TOP: nat := 0x1_0000_0000

  /** flash_info_t: sector start addresses and the size of the bank. */
  datatype Bank = Bank(known: bool, start: seq<nat>, size: nat)

  /** Sectors ascend, the bank ends inside the 32-bit address space, and its last
      sector number fits a short. */
  predicate OkBank(b: Bank) {
    && |b.start| <= 0x8000
    && (b.known ==> b.start != [])
    && (forall i, j :: 0 <= i < j < |b.start| ==> b.start[i] < b.start[j])
    && (b.start != [] ==> b.start[|b.start| - 1] < b.start[0] + b.size <= TOP)
  }

  predicate OkBanks(banks: seq<Bank>) { forall k :: 0 <= k < |banks| ==> OkBank(banks[k]) }

  /** The last address of a bank. */
  function BankEnd(b: Bank): int
    requires b.start != []
  {
    b.start[0] + b.size - 1
  }

  /** The last address of a sector. */
  function End(b: Bank, i: nat): int
    requires i < |b.start|
  {
    if i == |b.start| - 1 then BankEnd(b) else (b.start[i + 1] as int) - 1
  }

  lemma EndInBank(b: Bank, i: nat)
    requires OkBank(b) && i < |b.start|
    ensures b.start[0] <= b.start[i] <= End(b, i) <= BankEnd(b) < TOP
    ensures i < |b.start| - 1 ==> End(b, i) < BankEnd(b)
  {
  }

  lemma SectorsApart(b: Bank, i: nat, j: nat)
    requires OkBank(b) && i < j < |b.start|
    ensures End(b, i) < b.start[j] && End(b, i) < End(b, j)
  {
    EndInBank(b, i);
    EndInBank(b, j);
  }

  /** s is the sector that starts at a, or -1 when there is none. */
  predicate StartsAt(b: Bank, a: nat, s: int) {
    if s < 0 then s == -1 && forall i :: 0 <= i < |b.start| ==> b.start[i] != a
    else s < |b.start| && b.start[s] == a
  }

  /** s is the sector that ends at a, or -1 when there is none. */
  predicate EndsAt(b: Bank, a: nat, s: int) {
    if s < 0 then s == -1 && forall i :: 0 <= i < |b.start| ==> End(b, i) != a
    else s < |b.start| && End(b, s) == a
  }

  function SectorStarting(b: Bank, a: nat, n: nat): (s: int)
    requires n <= |b.start|
    ensures s < 0 ==> s == -1 && forall i :: 0 <= i < n ==> b.start[i] != a
    ensures s >= 0 ==> s < n && b.start[s] == a
  {
    if n == 0 then -1 else if b.start[n - 1] == a then n - 1 else SectorStarting(b, a, n - 1)
  }

  function SectorEnding(b: Bank, a: nat, n: nat): (s: int)
    requires n <= |b.start|
    ensures s < 0 ==> s == -1 && forall i :: 0 <= i < n ==> End(b, i) != a
    ensures s >= 0 ==> s < n && End(b, s) == a
  {
    if n == 0 then -1 else if End(b, n - 1) == a then n - 1 else SectorEnding(b, a, n - 1)
  }

  lemma OneSector(b: Bank, a: nat, s: int, t: int)
    requires OkBank(b)
    ensures StartsAt(b, a, s) && StartsAt(b, a, t) ==> s == t
    ensures EndsAt(b, a, s) && EndsAt(b, a, t) ==> s == t
  {
    if EndsAt(b, a, s) && EndsAt(b, a, t) {
      if 0 <= s < t { SectorsApart(b, s, t); }
      if 0 <= t < s { SectorsApart(b, t, s); }
    }
  }

  // ---- the plan ----

  /** s_first and s_last of one bank; -1, -1 when nothing of it is chosen. */
  datatype Range = Range(first: int, last: int)

  const NONE: Range := Range(-1, -1)

  /** What one bank does to the search. */
  datatype BankStep = Skip | Fail | Take(r: Range)

  function StepBank(b: Bank, first: nat, last: nat): BankStep
    requires OkBank(b)
  {
    if !b.known then Skip
    else
      var sf, sl := SectorStarting(b, first, |b.start|), SectorEnding(b, last, |b.start|);
      if sf >= 0 then
        if sl >= 0 then Take(Range(sf, sl))
        else if last > BankEnd(b) then Take(Range(sf, |b.start| - 1))
        else Fail
      else if b.start[0] <= first < BankEnd(b) || sl >= 0 then Fail
      else Skip
  }

  /** Return code, one range for each bank from k on, and the number of sectors. */
  datatype Plan = Plan(rc: int, ranges: seq<Range>, count: nat)

  predicate OkRange(b: Bank, r: Range) { r == NONE || (b.known && 0 <= r.first <= r.last < |b.start|) }

  function Size(r: Range): nat { if r.first < 0 || r.last < r.first then 0 else r.last - r.first + 1 }

  lemma StepOk(b: Bank, first: nat, last: nat)
    requires OkBank(b) && first <= last
    ensures var s := StepBank(b, first, last);
            s.Take? ==>
              && b.known && OkRange(b, s.r) && s.r != NONE && Size(s.r) > 0
              && b.start[s.r.first] == first && first <= End(b, s.r.last) <= last
              && (End(b, s.r.last) == last || (s.r.last == |b.start| - 1 && last > BankEnd(b)))
  {
    var s := StepBank(b, first, last);
    if s.Take? {
      if s.r.last < s.r.first {
        SectorsApart(b, s.r.last, s.r.first);
      }
      EndInBank(b, s.r.first);
      EndInBank(b, s.r.last);
      if s.r.first < s.r.last { SectorsApart(b, s.r.first, s.r.last); }
    }
  }

  /** The address behind a sector, in 32 bits: 0 behind the last one of the address space. */
  function Behind(b: Bank, i: nat): nat
    requires OkBank(b) && i < |b.start|
  {
    EndInBank(b, i);
    (End(b, i) + 1) % TOP
  }

  function Nones(n: nat): seq<Range> { seq(n, _ => NONE) }

  function Fill(banks: seq<Bank>, k: nat, first: nat, last: nat): (p: Plan)
    requires OkBanks(banks) && k <= |banks|
    ensures |p.ranges| == |banks| - k && (p.rc == 0 || p.rc == 1)
    decreases |banks| - k
  {
    if k == |banks| || first > last then Plan(0, Nones(|banks| - k), 0)
    else
      StepOk(banks[k], first, last);
      match StepBank(banks[k], first, last)
      case Skip =>
        var p := Fill(banks, k + 1, first, last);
        Plan(p.rc, [NONE] + p.ranges, p.count)
      case Fail => Plan(1, Nones(|banks| - k), 0)
      case Take(r) =>
        var p := Fill(banks, k + 1, Behind(banks[k], r.last), last);
        Plan(p.rc, [r] + p.ranges, Size(r) + p.count)
  }

  lemma {:induction false} FillOk(banks: seq<Bank>, k: nat, first: nat, last: nat, j: nat)
    requires OkBanks(banks) && k <= j < |banks|
    ensures OkRange(banks[j], Fill(banks, k, first, last).ranges[j - k])
    decreases |banks| - k
  {
    hide StepBank, OkBank, Behind;
    if first <= last {
      StepOk(banks[k], first, last);
      var s := StepBank(banks[k], first, last);
      if j > k && s.Skip? { FillOk(banks, k + 1, first, last, j); }
      if j > k && s.Take? { FillOk(banks, k + 1, Behind(banks[k], s.r.last), last, j); }
    }
  }

  // ---- the sectors it names ----

  datatype Sector = Sector(lo: nat, hi: int)

  function SectorAt(b: Bank, i: nat): Sector
    requires i < |b.start|
  {
    Sector(b.start[i], End(b, i))
  }

  /** The sectors of one bank that a range names. */
  function Named(b: Bank, r: Range): (s: seq<Sector>)
    requires OkRange(b, r)
    ensures |s| == Size(r)
  {
    if r == NONE then [] else seq(Size(r), t requires 0 <= t < Size(r) => SectorAt(b, r.first + t))
  }

  predicate OkRanges(banks: seq<Bank>, k: nat, ranges: seq<Range>) {
    && k <= |banks| && |ranges| == |banks| - k
    && forall j :: 0 <= j < |ranges| ==> OkRange(banks[k + j], ranges[j])
  }

  /** All sectors chosen, in the order of the banks. */
  function Chosen(banks: seq<Bank>, k: nat, ranges: seq<Range>): seq<Sector>
    requires OkRanges(banks, k, ranges)
    decreases |ranges|
  {
    if ranges == [] then []
    else
      assert OkRanges(banks, k + 1, ranges[1..]) by {
        assert forall j :: 0 <= j < |ranges| - 1 ==> ranges[1..][j] == ranges[j + 1];
      }
      assert OkRange(banks[k + 0], ranges[0]);
      Named(banks[k], ranges[0]) + Chosen(banks, k + 1, ranges[1..])
  }

  lemma FillRanges(banks: seq<Bank>, k: nat, first: nat, last: nat)
    requires OkBanks(banks) && k <= |banks|
    ensures OkRanges(banks, k, Fill(banks, k, first, last).ranges)
  {
    hide Fill, OkRange, OkBank;
    forall j | 0 <= j < |banks| - k
      ensures OkRange(banks[k + j], Fill(banks, k, first, last).ranges[j])
    {
      FillOk(banks, k, first, last, k + j);
    }
  }

  /** s covers exactly the addresses from lo up to but not including hi, without a gap
      and in order. */
  ghost predicate Tiles(s: seq<Sector>, lo: int, hi: int) {
    if s == [] then lo == hi
    else s[0].lo == lo <= s[0].hi && Tiles(s[1..], s[0].hi + 1, hi)
  }

  lemma {:induction false} TilesAppend(s: seq<Sector>, t: seq<Sector>, lo: int, mid: int, hi: int)
    requires Tiles(s, lo, mid) && Tiles(t, mid, hi)
    ensures Tiles(s + t, lo, hi)
  {
    if s == [] {
      assert s + t == t;
    } else {
      assert (s + t)[1..] == s[1..] + t && (s + t)[0] == s[0];
      TilesAppend(s[1..], t, s[0].hi + 1, mid, hi);
    }
  }

  lemma {:induction false} NamedTiles(b: Bank, r: Range)
    requires OkBank(b) && OkRange(b, r) && r != NONE
    ensures Tiles(Named(b, r), b.start[r.first], End(b, r.last) + 1)
    decreases r.last - r.first
  {
    var s := Named(b, r);
    EndInBank(b, r.first);
    assert s[0] == SectorAt(b, r.first);
    if r.first < r.last {
      var rest := Range(r.first + 1, r.last);
      NamedTiles(b, rest);
      assert s[1..] == Named(b, rest);
    } else {
      assert s[1..] == [];
    }
  }

  lemma {:induction false} ChosenNones(banks: seq<Bank>, k: nat, n: nat)
    requires k <= |banks| && n == |banks| - k
    ensures OkRanges(banks, k, Nones(n)) && Chosen(banks, k, Nones(n)) == []
    decreases n
  {
    if n > 0 {
      assert Nones(n)[1..] == Nones(n - 1);
      ChosenNones(banks, k + 1, n - 1);
    }
  }

  lemma ChosenCons(banks: seq<Bank>, k: nat, r: Range, rest: seq<Range>)
    requires k < |banks| && OkRange(banks[k], r) && OkRanges(banks, k + 1, rest)
    ensures OkRanges(banks, k, [r] + rest)
    ensures Chosen(banks, k, [r] + rest) == Named(banks[k], r) + Chosen(banks, k + 1, rest)
  {
    var all := [r] + rest;
    assert all[1..] == rest;
    forall j | 0 <= j < |all| ensures OkRange(banks[k + j], all[j]) {
      if j > 0 { assert OkRange(banks[k + 1 + (j - 1)], rest[j - 1]); }
    }
  }

  /** A bank that reaches the top of the address space is listed before one that starts at 0. */
  ghost predicate Wraps(banks: seq<Bank>, k: nat) {
    exists i, j :: k <= i < j < |banks| && AtTop(banks[i]) && AtZero(banks[j])
  }

  predicate AtTop(b: Bank) { b.known && b.start != [] && BankEnd(b) == TOP - 1 }

  predicate AtZero(b: Bank) { b.known && b.start != [] && b.start[0] == 0 }

  /** From address 0 nothing is chosen when no bank starts there. */
  lemma {:induction false} NothingAtZero(banks: seq<Bank>, k: nat, last: nat)
    requires OkBanks(banks) && k <= |banks|
    requires forall j :: k <= j < |banks| ==> !AtZero(banks[j])
    ensures var p := Fill(banks, k, 0, last);
            p.count == 0 && p.ranges == Nones(|banks| - k)
    decreases |banks| - k
  {
    if k < |banks| {
      var b := banks[k];
      StepOk(b, 0, last);
      assert !AtZero(b);
      NothingAtZero(banks, k + 1, last);
      assert [NONE] + Nones(|banks| - k - 1) == Nones(|banks| - k);
    }
  }

  /** Whatever the banks: a plan without error is one unbroken interval that starts at the
      requested address and does not pass the last one, as long as no bank behind the top of
      the address space starts at 0. */
  lemma {:induction false} PlanTiles(banks: seq<Bank>, k: nat, first: nat, last: nat) returns (hi: int)
    requires OkBanks(banks) && k <= |banks| && !Wraps(banks, k) && first < TOP && last < TOP
    ensures var p := Fill(banks, k, first, last);
            && OkRanges(banks, k, p.ranges)
            && p.count == |Chosen(banks, k, p.ranges)|
            && (p.rc == 0 ==> Tiles(Chosen(banks, k, p.ranges), first, hi))
            && (p.count > 0 ==> first < hi <= last + 1)
            && (p.count == 0 ==> hi == first)
    decreases |banks| - k, 1
  {
    hide Tiles, Chosen, Named, StepBank, OkRanges, Wraps, OkBank;
    FillRanges(banks, k, first, last);
    ChosenNones(banks, k, |banks| - k);
    TilesNothing(first);
    WrapsBehind(banks, k);
    hi := first;
    if k < |banks| && first <= last {
      var b := banks[k];
      StepOk(b, first, last);
      match StepBank(b, first, last) {
        case Fail =>
        case Skip =>
          hi := PlanTiles(banks, k + 1, first, last);
          FillRanges(banks, k + 1, first, last);
          ChosenCons(banks, k, NONE, Fill(banks, k + 1, first, last).ranges);
          NamedNone(b);
        case Take(r) =>
          hi := TakeTiles(banks, k, first, last, r);
      }
    }
  }

  lemma TilesNothing(a: int)
    ensures Tiles([], a, a)
  {
  }

  lemma NamedNone(b: Bank)
    ensures Named(b, NONE) == []
    ensures forall s: seq<Sector> :: Named(b, NONE) + s == s
  {
  }

  lemma WrapsBehind(banks: seq<Bank>, k: nat)
    requires !Wraps(banks, k)
    ensures !Wraps(banks, k + 1)
    ensures k < |banks| && AtTop(banks[k]) ==> forall j :: k < j < |banks| ==> !AtZero(banks[j])
  {
  }

  lemma TakeTiles(banks: seq<Bank>, k: nat, first: nat, last: nat, r: Range) returns (hi: int)
    requires OkBanks(banks) && k < |banks| && !Wraps(banks, k) && first <= last < TOP
    requires StepBank(banks[k], first, last) == Take(r)
    ensures var p := Fill(banks, k, first, last);
            && OkRanges(banks, k, p.ranges)
            && p.count == |Chosen(banks, k, p.ranges)| > 0
            && (p.rc == 0 ==> Tiles(Chosen(banks, k, p.ranges), first, hi))
            && first < hi <= last + 1
    decreases |banks| - k, 0
  {
    hide Tiles, Chosen, Named, StepBank, OkRanges, Wraps, OkBank, End, BankEnd, AtTop, AtZero;
    WrapsBehind(banks, k);
    var b := banks[k];
    StepOk(b, first, last);
    NamedTiles(b, r);
    var end := End(b, r.last);
    var next := Behind(b, r.last);
    var rest := Fill(banks, k + 1, next, last);
    FillRanges(banks, k + 1, next, last);
    ChosenCons(banks, k, r, rest.ranges);
    var tail := Chosen(banks, k + 1, rest.ranges);
    if end == TOP - 1 {
      TopIsLast(b, r.last);
      NothingAtZero(banks, k + 1, last);
      ChosenNones(banks, k + 1, |banks| - k - 1);
      hi := end + 1;
      TilesNothing(hi);
    } else {
      hi := PlanTiles(banks, k + 1, next, last);
      if rest.count == 0 { hi := end + 1; }
    }
    if rest.rc == 0 {
      TilesAppend(Named(b, r), tail, first, end + 1, hi);
    }
  }

  lemma TopIsLast(b: Bank, i: nat)
    requires OkBank(b) && b.known && i < |b.start| && End(b, i) == TOP - 1
    ensures AtTop(b)
  {
    EndInBank(b, i);
  }
}

/** Banks without gaps: the plan is exactly the requested range, whenever that range starts
    and ends on sector boundaries, and otherwise there is no plan. */
module FlashExact {
  import opened FlashPlan

  /** The known banks from k on follow each other without a gap, from address `at`. */
  predicate Contiguous(banks: seq<Bank>, k: nat, at: nat)
    requires OkBanks(banks) && k <= |banks|
    decreases |banks| - k
  {
    k == |banks| ||
    if !banks[k].known then Contiguous(banks, k + 1, at)
    else banks[k].start[0] == at && Contiguous(banks, k + 1, NextAt(banks[k]))
  }

  function NextAt(b: Bank): nat
    requires OkBank(b) && b.known
  {
    BankEnd(b) + 1
  }

  /** The first address behind all of them. */
  function FlashEnd(banks: seq<Bank>, k: nat, at: nat): nat
    requires OkBanks(banks) && k <= |banks|
    decreases |banks| - k
  {
    if k == |banks| then at
    else if !banks[k].known then FlashEnd(banks, k + 1, at)
    else FlashEnd(banks, k + 1, NextAt(banks[k]))
  }

  ghost predicate StartsSector(banks: seq<Bank>, k: nat, a: nat) {
    exists j, i :: IsSector(banks, k, j, i) && banks[j].start[i] == a
  }

  ghost predicate EndsSector(banks: seq<Bank>, k: nat, a: nat) {
    exists j, i :: IsSector(banks, k, j, i) && End(banks[j], i) == a
  }

  predicate IsSector(banks: seq<Bank>, k: nat, j: int, i: int) {
    k <= j < |banks| && banks[j].known && 0 <= i < |banks[j].start|
  }

  /** Every sector behind position k lies at or behind `at`, in front of the end. */
  lemma {:induction false} SectorsBehind(banks: seq<Bank>, k: nat, at: nat, j: nat, i: nat)
    requires OkBanks(banks) && k <= |banks| && Contiguous(banks, k, at) && IsSector(banks, k, j, i)
    ensures at <= banks[j].start[i] <= End(banks[j], i) < FlashEnd(banks, k, at)
    decreases |banks| - k
  {
    var b := banks[k];
    if j > k {
      SectorsBehind(banks, k + 1, if b.known then NextAt(b) else at, j, i);
    } else {
      EndInBank(b, i);
      EndGrows(banks, k + 1, NextAt(b));
    }
  }

  lemma {:induction false} EndGrows(banks: seq<Bank>, k: nat, at: nat)
    requires OkBanks(banks) && k <= |banks| && Contiguous(banks, k, at)
    ensures at <= FlashEnd(banks, k, at)
    ensures at < FlashEnd(banks, k, at) ==> StartsSector(banks, k, at)
    decreases |banks| - k
  {
    if k < |banks| {
      var b := banks[k];
      if b.known {
        EndGrows(banks, k + 1, NextAt(b));
        assert IsSector(banks, k, k, 0);
      } else {
        EndGrows(banks, k + 1, at);
        OnlyBehind(banks, k, at);
      }
    }
  }

  /** What is a boundary from k + 1 on is one from k on; and the other way round when
      bank k has none there. */
  lemma OnlyBehind(banks: seq<Bank>, k: nat, a: nat)
    requires k < |banks|
    ensures StartsSector(banks, k + 1, a) ==> StartsSector(banks, k, a)
    ensures EndsSector(banks, k + 1, a) ==> EndsSector(banks, k, a)
    ensures StartsSector(banks, k, a) ==>
              StartsSector(banks, k + 1, a)
              || (banks[k].known && exists i :: 0 <= i < |banks[k].start| && banks[k].start[i] == a)
    ensures EndsSector(banks, k, a) ==>
              EndsSector(banks, k + 1, a)
              || (banks[k].known && exists i :: 0 <= i < |banks[k].start| && End(banks[k], i) == a)
  {
    if StartsSector(banks, k + 1, a) {
      var j, i :| IsSector(banks, k + 1, j, i) && banks[j].start[i] == a;
      assert IsSector(banks, k, j, i);
    }
    if EndsSector(banks, k + 1, a) {
      var j, i :| IsSector(banks, k + 1, j, i) && End(banks[j], i) == a;
      assert IsSector(banks, k, j, i);
    }
    if StartsSector(banks, k, a) {
      var j, i :| IsSector(banks, k, j, i) && banks[j].start[i] == a;
      if j > k { assert IsSector(banks, k + 1, j, i); }
    }
    if EndsSector(banks, k, a) {
      var j, i :| IsSector(banks, k, j, i) && End(banks[j], i) == a;
      if j > k { assert IsSector(banks, k + 1, j, i); }
    }
  }

  /** When no sector starts at the first address nothing is chosen. */
  lemma {:induction false} NoStart(banks: seq<Bank>, k: nat, first: nat, last: nat)
    requires OkBanks(banks) && k <= |banks| && !StartsSector(banks, k, first)
    ensures Fill(banks, k, first, last).count == 0
    decreases |banks| - k
  {
    hide StartsSector, EndsSector, StepBank;
    if k < |banks| && first <= last {
      OnlyBehind(banks, k, first);
      TakesAtStart(banks, k, first, last);
      NoStart(banks, k + 1, first, last);
    }
  }

  lemma TakesAtStart(banks: seq<Bank>, k: nat, first: nat, last: nat)
    requires OkBanks(banks) && k < |banks| && first <= last
    ensures StepBank(banks[k], first, last).Take? ==> StartsSector(banks, k, first)
  {
    StepOk(banks[k], first, last);
    if StepBank(banks[k], first, last).Take? {
      assert IsSector(banks, k, k, StepBank(banks[k], first, last).r.first);
    }
  }

  /** Past the top of the address space there are no more known banks. */
  lemma {:induction false} NothingPastTop(banks: seq<Bank>, k: nat, at: nat, first: nat, last: nat)
    requires OkBanks(banks) && k <= |banks| && Contiguous(banks, k, at) && at >= TOP
    ensures Fill(banks, k, first, last) == Plan(0, Nones(|banks| - k), 0)
    decreases |banks| - k
  {
    if k < |banks| {
      NothingPastTop(banks, k + 1, at, first, last);
      assert [NONE] + Nones(|banks| - k - 1) == Nones(|banks| - k);
    }
  }

  /** The step at one bank, seen from the addresses. */
  lemma StepSeen(banks: seq<Bank>, k: nat, at: nat, first: nat, last: nat)
    requires OkBanks(banks) && k < |banks| && banks[k].known && Contiguous(banks, k, at)
    requires first <= last && StartsSector(banks, k, first)
    ensures var b := banks[k]; var s := StepBank(b, first, last);
            && (s.Skip? ==> first > BankEnd(b) && StartsSector(banks, k + 1, first))
            && (s.Fail? ==> !EndsSector(banks, k, last) && last <= BankEnd(b))
            && (s.Take? && End(b, s.r.last) == last ==> EndsSector(banks, k, last))
            && (s.Take? && End(b, s.r.last) != last ==> last > BankEnd(b) == End(b, s.r.last))
            && (last > BankEnd(b) ==> (EndsSector(banks, k, last) <==> EndsSector(banks, k + 1, last)))
  {
    hide FlashEnd, Wraps;
    var b := banks[k];
    var s := StepBank(b, first, last);
    StepOk(b, first, last);
    OnlyBehind(banks, k, first);
    OnlyBehind(banks, k, last);
    StartsFarther(banks, k, first);
    EndsFarther(banks, k, last);
    forall i | 0 <= i < |b.start| ensures End(b, i) <= BankEnd(b) { EndInBank(b, i); }
    if s.Take? && End(b, s.r.last) == last {
      assert IsSector(banks, k, k, s.r.last);
    }
  }

  lemma StartsFarther(banks: seq<Bank>, k: nat, a: nat)
    requires OkBanks(banks) && k < |banks| && banks[k].known && Contiguous(banks, k, banks[k].start[0])
    ensures StartsSector(banks, k + 1, a) ==> a > BankEnd(banks[k])
  {
    if StartsSector(banks, k + 1, a) {
      var j, i :| IsSector(banks, k + 1, j, i) && banks[j].start[i] == a;
      SectorsBehind(banks, k + 1, NextAt(banks[k]), j, i);
    }
  }

  lemma EndsFarther(banks: seq<Bank>, k: nat, a: nat)
    requires OkBanks(banks) && k < |banks| && banks[k].known && Contiguous(banks, k, banks[k].start[0])
    ensures EndsSector(banks, k + 1, a) ==> a > BankEnd(banks[k])
  {
    if EndsSector(banks, k + 1, a) {
      var j, i :| IsSector(banks, k + 1, j, i) && End(banks[j], i) == a;
      SectorsBehind(banks, k + 1, NextAt(banks[k]), j, i);
    }
  }

  /** Sector i of bank j is chosen. */
  predicate Picked(p: Plan, k: nat, j: nat, i: nat)
    requires k <= j < k + |p.ranges|
  {
    p.ranges[j - k].first <= i <= p.ranges[j - k].last
  }

  /** The last address ends a sector, or is past all of them. */
  ghost predicate Stops(banks: seq<Bank>, k: nat, at: nat, last: nat)
    requires OkBanks(banks) && k <= |banks|
  {
    EndsSector(banks, k, last) || last >= FlashEnd(banks, k, at)
  }

  /** Where a range that ends at `last` leaves the flash. */
  function Until(banks: seq<Bank>, k: nat, at: nat, last: nat): nat
    requires OkBanks(banks) && k <= |banks|
  {
    if last < FlashEnd(banks, k, at) then last + 1 else FlashEnd(banks, k, at)
  }

  /** From a sector boundary the plan succeeds exactly when the last address ends a sector,
      and then it is the requested range. */
  lemma {:induction false} FromBoundary(banks: seq<Bank>, k: nat, at: nat, first: nat, last: nat)
    requires OkBanks(banks) && k <= |banks| && Contiguous(banks, k, at)
    requires StartsSector(banks, k, first) && first <= last < TOP
    ensures var p := Fill(banks, k, first, last);
            && (p.rc == 0 <==> Stops(banks, k, at, last))
            && (p.rc == 0 ==> p.count > 0)
            && (p.rc == 0 ==>
                OkRanges(banks, k, p.ranges) && Tiles(Chosen(banks, k, p.ranges), first, Until(banks, k, at, last)))
    decreases |banks| - k
  {
    hide StartsSector, EndsSector, StepBank, Tiles, Chosen, Named, OkRanges, OkBank;
    SomeBank(banks, k, first);
    var b := banks[k];
    OnlyBehind(banks, k, first);
    OnlyBehind(banks, k, last);
    StepOk(b, first, last);
    FillRanges(banks, k, first, last);
    if !b.known {
      SkipUnknown(b, first, last);
      FromBoundary(banks, k + 1, at, first, last);
      SkipChosen(banks, k, first, last);
    } else {
      StepSeen(banks, k, at, first, last);
      match StepBank(b, first, last) {
        case Fail =>
          EndGrows(banks, k + 1, NextAt(b));
        case Skip =>
          FromBoundary(banks, k + 1, NextAt(b), first, last);
          SkipChosen(banks, k, first, last);
        case Take(r) =>
          TakeExact(banks, k, at, first, last, r);
      }
    }
  }

  lemma SomeBank(banks: seq<Bank>, k: nat, a: nat)
    requires StartsSector(banks, k, a)
    ensures k < |banks|
  {
  }

  lemma SkipUnknown(b: Bank, first: nat, last: nat)
    requires OkBank(b) && !b.known
    ensures StepBank(b, first, last) == Skip
  {
  }

  lemma SkipChosen(banks: seq<Bank>, k: nat, first: nat, last: nat)
    requires OkBanks(banks) && k < |banks| && first <= last && StepBank(banks[k], first, last) == Skip
    ensures var p, q := Fill(banks, k, first, last), Fill(banks, k + 1, first, last);
            && OkRanges(banks, k, p.ranges) && OkRanges(banks, k + 1, q.ranges)
            && Chosen(banks, k, p.ranges) == Chosen(banks, k + 1, q.ranges)
  {
    hide Chosen, Named, StepBank, OkRanges, OkBank;
    FillRanges(banks, k, first, last);
    FillRanges(banks, k + 1, first, last);
    ChosenCons(banks, k, NONE, Fill(banks, k + 1, first, last).ranges);
    NamedNone(banks[k]);
  }

  lemma TakeExact(banks: seq<Bank>, k: nat, at: nat, first: nat, last: nat, r: Range)
    requires OkBanks(banks) && k < |banks| && banks[k].known && Contiguous(banks, k, at)
    requires StartsSector(banks, k, first) && first <= last < TOP
    requires StepBank(banks[k], first, last) == Take(r)
    ensures var p := Fill(banks, k, first, last);
            && (p.rc == 0 <==> Stops(banks, k, at, last))
            && p.count > 0
            && (p.rc == 0 ==>
                OkRanges(banks, k, p.ranges) && Tiles(Chosen(banks, k, p.ranges), first, Until(banks, k, at, last)))
    decreases |banks| - k, 0
  {
    hide StartsSector, EndsSector, StepBank, Tiles, Chosen, Named, OkRanges, OkBank;
    var b := banks[k];
    StepOk(b, first, last);
    var end, next := End(b, r.last), Behind(b, r.last);
    StepSeen(banks, k, at, first, last);
    NamedTiles(b, r);
    FillRanges(banks, k, first, last);
    FillRanges(banks, k + 1, next, last);
    var rest := Fill(banks, k + 1, next, last);
    ChosenCons(banks, k, r, rest.ranges);
    var tail := Chosen(banks, k + 1, rest.ranges);
    EndGrows(banks, k + 1, NextAt(b));
    EndInBank(b, r.last);
    if end == last {
      if next == 0 {
        EndIsTop(b, r.last);
        NothingPastTop(banks, k + 1, NextAt(b), 0, last);
      }
      ChosenNones(banks, k + 1, |banks| - k - 1);
      TilesNothing(last + 1);
    } else if NextAt(b) < FlashEnd(banks, k + 1, NextAt(b)) {
      FromBoundary(banks, k + 1, NextAt(b), next, last);
    } else {
      NothingLeft(banks, k + 1, NextAt(b), next, last);
      ChosenNones(banks, k + 1, |banks| - k - 1);
      TilesNothing(end + 1);
    }
    if rest.rc == 0 {
      TilesAppend(Named(b, r), tail, first, end + 1, Until(banks, k, at, last));
    }
  }

  lemma EndIsTop(b: Bank, i: nat)
    requires OkBank(b) && b.known && i < |b.start| && Behind(b, i) == 0
    ensures NextAt(b) >= TOP
  {
    EndInBank(b, i);
  }

  /** Where the flash ends nothing more is chosen. */
  lemma {:induction false} NothingLeft(banks: seq<Bank>, k: nat, at: nat, first: nat, last: nat)
    requires OkBanks(banks) && k <= |banks| && Contiguous(banks, k, at) && FlashEnd(banks, k, at) == at
    ensures Fill(banks, k, first, last) == Plan(0, Nones(|banks| - k), 0)
    ensures forall j :: k <= j < |banks| ==> !banks[j].known
    decreases |banks| - k
  {
    if k < |banks| {
      if banks[k].known {
        EndGrows(banks, k + 1, NextAt(banks[k]));
      }
      NothingLeft(banks, k + 1, at, first, last);
      assert [NONE] + Nones(|banks| - k - 1) == Nones(|banks| - k);
    }
  }

  /** Banks without gaps: there is a plan exactly when the range starts on a sector boundary
      and ends on one or past the flash, and then its sectors are the part of the range that
      is flash, neither more nor less. */
  lemma PlanIsRange(banks: seq<Bank>, at: nat, first: nat, last: nat)
    requires OkBanks(banks) && Contiguous(banks, 0, at) && first <= last < TOP
    ensures var p := Fill(banks, 0, first, last);
            && ((p.rc == 0 && p.count > 0) <==> StartsSector(banks, 0, first) && Stops(banks, 0, at, last))
            && (p.rc == 0 && p.count > 0 ==>
                OkRanges(banks, 0, p.ranges) && Tiles(Chosen(banks, 0, p.ranges), first, Until(banks, 0, at, last)))
  {
    hide StartsSector, EndsSector, Tiles, Chosen, OkRanges, Fill, Contiguous;
    if StartsSector(banks, 0, first) {
      FromBoundary(banks, 0, at, first, last);
    } else {
      NoStart(banks, 0, first, last);
    }
  }

  /** A sector is chosen exactly when it lies inside the requested range. */
  lemma {:induction false} PickedIffInside(banks: seq<Bank>, k: nat, at: nat, first: nat, last: nat, j: nat, i: nat)
    requires OkBanks(banks) && k <= |banks| && Contiguous(banks, k, at)
    requires StartsSector(banks, k, first) && Stops(banks, k, at, last) && first <= last < TOP
    requires IsSector(banks, k, j, i)
    ensures Picked(Fill(banks, k, first, last), k, j, i) <==> first <= banks[j].start[i] && End(banks[j], i) <= last
    decreases |banks| - k, 1
  {
    hide StartsSector, EndsSector, StepBank, OkBank;
    var b := banks[k];
    OnlyBehind(banks, k, first);
    OnlyBehind(banks, k, last);
    StepOk(b, first, last);
    if !b.known {
      SkipUnknown(b, first, last);
      PickedIffInside(banks, k + 1, at, first, last, j, i);
    } else {
      StepSeen(banks, k, at, first, last);
      EndGrows(banks, k + 1, NextAt(b));
      match StepBank(b, first, last) {
        case Fail =>
          assert false;
        case Skip =>
          if j > k {
            PickedIffInside(banks, k + 1, NextAt(b), first, last, j, i);
          } else {
            EndInBank(b, i);
          }
        case Take(r) =>
          if j > k {
            SectorsBehind(banks, k + 1, NextAt(b), j, i);
            PickedLater(banks, k, at, first, last, j, i, r);
          } else {
            PickedHere(b, r, first, last, i);
          }
      }
    }
  }

  lemma PickedHere(b: Bank, r: Range, first: nat, last: nat, i: nat)
    requires OkBank(b) && OkRange(b, r) && r != NONE && i < |b.start|
    requires b.start[r.first] == first && End(b, r.last) <= last
    requires End(b, r.last) == last || (r.last == |b.start| - 1 && last > BankEnd(b))
    ensures r.first <= i <= r.last <==> first <= b.start[i] && End(b, i) <= last
  {
    EndInBank(b, i);
    if i > r.last { SectorsApart(b, r.last, i); }
    if i < r.last { SectorsApart(b, i, r.last); }
  }

  lemma PickedLater(banks: seq<Bank>, k: nat, at: nat, first: nat, last: nat, j: nat, i: nat, r: Range)
    requires OkBanks(banks) && k < |banks| && banks[k].known && Contiguous(banks, k, at)
    requires StartsSector(banks, k, first) && Stops(banks, k, at, last) && first <= last < TOP
    requires IsSector(banks, k + 1, j, i) && StepBank(banks[k], first, last) == Take(r)
    ensures Picked(Fill(banks, k, first, last), k, j, i) <==> first <= banks[j].start[i] && End(banks[j], i) <= last
    decreases |banks| - k, 0
  {
    hide StartsSector, EndsSector, StepBank, OkBank;
    var b := banks[k];
    StepOk(b, first, last);
    StepSeen(banks, k, at, first, last);
    EndGrows(banks, k + 1, NextAt(b));
    SectorsBehind(banks, k + 1, NextAt(b), j, i);
    EndInBank(b, r.last);
    EndInBank(b, r.first);
    EndInBank(banks[j], i);
    var next := Behind(b, r.last);
    if End(b, r.last) != last {
      PickedIffInside(banks, k + 1, NextAt(b), next, last, j, i);
    }
  }
}

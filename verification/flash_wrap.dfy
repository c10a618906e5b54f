/** The address behind a chosen sector is kept in 32 bits. For banks that do not overlap the
    plans are unbroken intervals for every request exactly when no bank that reaches the top
    of the address space is listed before one that starts at 0. */
module FlashWrap {
  import opened FlashPlan
  import FlashExact

  /** A plan, if there is one, covers an unbroken interval from `first` that does not pass `last`. */
  ghost predicate Unbroken(banks: seq<Bank>, first: nat, last: nat)
    requires OkBanks(banks)
  {
    FillRanges(banks, 0, first, last);
    var p := Fill(banks, 0, first, last);
    p.rc == 0 && p.count > 0 ==>
      exists hi :: first < hi <= last + 1 && Tiles(Chosen(banks, 0, p.ranges), first, hi)
  }

  ghost predicate AlwaysUnbroken(banks: seq<Bank>)
    requires OkBanks(banks)
  {
    forall first, last :: 0 <= first < TOP && 0 <= last < TOP ==> Unbroken(banks, first, last)
  }

  predicate Apart(a: Bank, b: Bank)
    requires OkBank(a) && OkBank(b)
  {
    a.known && b.known ==> BankEnd(a) < b.start[0] || BankEnd(b) < a.start[0]
  }

  predicate Disjoint(banks: seq<Bank>)
    requires OkBanks(banks)
  {
    forall i, j :: 0 <= i < j < |banks| ==> Apart(banks[i], banks[j])
  }

  /** The address lies in no bank from k on, or at the start of one. */
  predicate Clean(banks: seq<Bank>, k: nat, a: nat)
    requires OkBanks(banks)
  {
    forall j :: k <= j < |banks| && banks[j].known ==> !(banks[j].start[0] < a <= BankEnd(banks[j]))
  }

  /** A bank that does not reach the top, seen from a clean address. */
  lemma CleanStep(b: Bank, a: nat)
    requires OkBank(b) && b.known && !AtTop(b) && a < TOP && !(b.start[0] < a <= BankEnd(b))
    ensures b.start != []
    ensures StepBank(b, a, TOP - 1) ==
            if b.start[0] == a then Take(Range(0, |b.start| - 1)) else Skip
  {
    var sf, sl := SectorStarting(b, a, |b.start|), SectorEnding(b, TOP - 1, |b.start|);
    forall i | 0 <= i < |b.start| ensures b.start[0] <= b.start[i] <= End(b, i) <= BankEnd(b) < TOP - 1 {
      EndInBank(b, i);
    }
    assert sl < 0;
    assert b.start[0] == a ==> StartsAt(b, a, 0);
    OneSector(b, a, sf, 0);
  }

  lemma {:induction false} CleanPlan(banks: seq<Bank>, k: nat, a: nat)
    requires OkBanks(banks) && Disjoint(banks) && k <= |banks| && a < TOP && Clean(banks, k, a)
    requires forall j :: k <= j < |banks| ==> !AtTop(banks[j])
    ensures Fill(banks, k, a, TOP - 1).rc == 0
    ensures forall j :: k <= j < |banks| && banks[j].known && banks[j].start[0] == a ==>
            Fill(banks, k, a, TOP - 1).count > 0
    decreases |banks| - k
  {
    hide OkBank, StepBank;
    if k < |banks| {
      var b := banks[k];
      if !b.known {
        FlashExact.SkipUnknown(b, a, TOP - 1);
        CleanPlan(banks, k + 1, a);
      } else {
        CleanStep(b, a);
        StepOk(b, a, TOP - 1);
        if b.start[0] == a {
          CleanBehind(banks, k);
          CleanPlan(banks, k + 1, Behind(b, |b.start| - 1));
        } else {
          CleanPlan(banks, k + 1, a);
        }
      }
    }
  }

  lemma CleanBehind(banks: seq<Bank>, k: nat)
    requires OkBanks(banks) && Disjoint(banks) && k < |banks| && banks[k].known && !AtTop(banks[k])
    ensures Behind(banks[k], |banks[k].start| - 1) < TOP
    ensures Clean(banks, k + 1, Behind(banks[k], |banks[k].start| - 1))
  {
    EndInBank(banks[k], |banks[k].start| - 1);
    forall j | k < j < |banks| ensures Apart(banks[k], banks[j]) {}
  }

  /** Banks in front of the top one have nothing to do with its addresses. */
  lemma {:induction false} UpToTop(banks: seq<Bank>, k: nat, i: nat)
    requires OkBanks(banks) && Disjoint(banks) && k <= i < |banks| && AtTop(banks[i])
    ensures var first := banks[i].start[0];
            var p, q := Fill(banks, k, first, TOP - 1), Fill(banks, i, first, TOP - 1);
            && OkRanges(banks, k, p.ranges) && OkRanges(banks, i, q.ranges)
            && p.rc == q.rc && p.count == q.count
            && Chosen(banks, k, p.ranges) == Chosen(banks, i, q.ranges)
    decreases i - k
  {
    hide Chosen, OkRanges;
    var first := banks[i].start[0];
    FillRanges(banks, i, first, TOP - 1);
    if k < i {
      UpToTop(banks, k + 1, i);
      OtherBank(banks[k], banks[i]);
      FlashExact.SkipChosen(banks, k, first, TOP - 1);
    }
  }

  lemma OtherBank(b: Bank, top: Bank)
    requires OkBank(b) && OkBank(top) && AtTop(top) && Apart(b, top)
    ensures StepBank(b, top.start[0], TOP - 1) == Skip
  {
    if b.known {
      EndInBank(b, 0);
      CleanStep(b, top.start[0]);
    }
  }

  lemma {:induction false} TilesLeft(s: seq<Sector>, t: seq<Sector>, lo: int, mid: int, hi: int)
    requires Tiles(s, lo, mid) && Tiles(s + t, lo, hi)
    ensures Tiles(t, mid, hi) && mid <= hi && (t != [] ==> mid < hi)
    decreases |s| + |t|
  {
    if s != [] {
      assert (s + t)[1..] == s[1..] + t && (s + t)[0] == s[0];
      TilesLeft(s[1..], t, s[0].hi + 1, mid, hi);
    } else {
      assert s + t == t;
      if t != [] {
        TilesLeft([], t[1..], t[0].hi + 1, t[0].hi + 1, hi) by { assert [] + t[1..] == t[1..]; }
      }
    }
  }

  lemma TopStep(b: Bank)
    requires OkBank(b) && AtTop(b)
    ensures StepBank(b, b.start[0], TOP - 1) == Take(Range(0, |b.start| - 1))
    ensures Behind(b, |b.start| - 1) == 0 && End(b, |b.start| - 1) == TOP - 1
  {
    var n := |b.start|;
    OneSector(b, b.start[0], SectorStarting(b, b.start[0], n), 0);
    OneSector(b, TOP - 1, SectorEnding(b, TOP - 1, n), n - 1);
  }

  /** The whole top bank is asked for, and the bank at 0 comes on top of it. */
  lemma WrapBreaks(banks: seq<Bank>, i: nat, j: nat)
    requires OkBanks(banks) && Disjoint(banks) && i < j < |banks| && AtTop(banks[i]) && AtZero(banks[j])
    ensures !Unbroken(banks, banks[i].start[0], TOP - 1)
  {
    hide Chosen, OkRanges, Tiles, Named, OkBank;
    var b := banks[i];
    var first, r := b.start[0], Range(0, |b.start| - 1);
    UpToTop(banks, 0, i);
    TopStep(b);
    StartBelowTop(b);
    StepOk(b, first, TOP - 1);
    OthersBelow(banks, i);
    CleanPlan(banks, i + 1, 0);
    var rest := Fill(banks, i + 1, 0, TOP - 1);
    FillRanges(banks, i + 1, 0, TOP - 1);
    ChosenCons(banks, i, r, rest.ranges);
    CountIsChosen(banks, i + 1, 0, TOP - 1);
    NamedTiles(b, r);
    var p := Fill(banks, 0, first, TOP - 1);
    FillRanges(banks, 0, first, TOP - 1);
    var tail := Chosen(banks, i + 1, rest.ranges);
    forall hi | first < hi <= TOP && Tiles(Chosen(banks, 0, p.ranges), first, hi) ensures false {
      TilesLeft(Named(b, r), tail, first, TOP, hi);
    }
  }

  lemma OthersBelow(banks: seq<Bank>, i: nat)
    requires OkBanks(banks) && Disjoint(banks) && i < |banks| && AtTop(banks[i])
    ensures forall j :: i < j < |banks| ==> !AtTop(banks[j])
  {
    forall j | i < j < |banks| ensures !AtTop(banks[j]) {
      assert Apart(banks[i], banks[j]);
      if banks[j].start != [] { EndInBank(banks[j], 0); }
      EndInBank(banks[i], 0);
    }
  }

  lemma {:induction false} CountIsChosen(banks: seq<Bank>, k: nat, first: nat, last: nat)
    requires OkBanks(banks) && k <= |banks|
    ensures var p := Fill(banks, k, first, last);
            OkRanges(banks, k, p.ranges) && p.count == |Chosen(banks, k, p.ranges)|
    decreases |banks| - k
  {
    hide Chosen, OkRanges, StepBank, Named;
    FillRanges(banks, k, first, last);
    ChosenNones(banks, k, |banks| - k);
    if k < |banks| && first <= last {
      StepOk(banks[k], first, last);
      match StepBank(banks[k], first, last) {
        case Fail =>
        case Skip =>
          CountIsChosen(banks, k + 1, first, last);
          FlashExact.SkipChosen(banks, k, first, last);
        case Take(r) =>
          var next := Behind(banks[k], r.last);
          CountIsChosen(banks, k + 1, next, last);
          ChosenCons(banks, k, r, Fill(banks, k + 1, next, last).ranges);
      }
    }
  }

  lemma UnbrokenIffNoWrap(banks: seq<Bank>)
    requires OkBanks(banks) && Disjoint(banks)
    ensures AlwaysUnbroken(banks) <==> !Wraps(banks, 0)
  {
    hide Fill, Chosen, Tiles, OkBank;
    if Wraps(banks, 0) {
      var i: nat, j: nat :| i < j < |banks| && AtTop(banks[i]) && AtZero(banks[j]);
      WrapBreaks(banks, i, j);
      StartBelowTop(banks[i]);
    } else {
      forall first: nat, last: nat | first < TOP && last < TOP ensures Unbroken(banks, first, last) {
        var hi := PlanTiles(banks, 0, first, last);
      }
    }
  }

  lemma StartBelowTop(b: Bank)
    requires OkBank(b) && b.start != []
    ensures b.start[0] < TOP
  {
    EndInBank(b, 0);
  }
}

/** The flash commands as they run: loops over banks and sectors that fill s_first and
    s_last, and the erase and protect loops that use them. */
module FlashCommands {
  import opened FlashPlan
  import opened FlashExact

  /** One call of the driver's erase function. */
  datatype Call = Call(bank: nat, first: int, last: int)

  /** The calls a plan stands for, in order. */
  function Calls(k: nat, ranges: seq<Range>): seq<Call>
    decreases |ranges|
  {
    if ranges == [] then []
    else (if ranges[0].first >= 0 then [Call(k, ranges[0].first, ranges[0].last)] else []) + Calls(k + 1, ranges[1..])
  }

  /** rc is 0 and the plan is not empty. */
  predicate Planned(banks: seq<Bank>, first: nat, last: nat)
    requires OkBanks(banks)
  {
    Fill(banks, 0, first, last).rc == 0 && Fill(banks, 0, first, last).count > 0
  }

  predicate InSector(banks: seq<Bank>, j: int, i: int, a: nat) {
    0 <= j < |banks| && 0 <= i < |banks[j].start| && banks[j].start[i] <= a <= End(banks[j], i)
  }

  class Flash {
    const banks: seq<Bank>
    const driver: Call -> int      // what the driver answers to an erase call
    var erased: seq<Call>
    var protect: seq<seq<int>>     // info->protect

    ghost predicate Valid()
      reads `protect
    {
      && OkBanks(banks)
      && |protect| == |banks|
      && forall k :: 0 <= k < |banks| ==> |protect[k]| == |banks[k].start|
    }

    constructor (banks: seq<Bank>, driver: Call -> int, protect: seq<seq<int>>)
      requires OkBanks(banks) && |protect| == |banks|
      requires forall k :: 0 <= k < |banks| ==> |protect[k]| == |banks[k].start|
      ensures Valid() && this.banks == banks && this.driver == driver && this.protect == protect && erased == []
    {
      this.banks, this.driver, this.protect := banks, driver, protect;
      erased := [];
    }

    /** The loop over the sectors of one bank. */
    method ScanSectors(k: nat, first: nat, last: nat) returns (sFirst: int, sLast: int)
      requires OkBanks(banks) && k < |banks| && banks[k].known && first <= last
      ensures sFirst == SectorStarting(banks[k], first, |banks[k].start|)
      ensures sLast == SectorEnding(banks[k], last, |banks[k].start|)
    {
      var info := banks[k];
      sFirst, sLast := -1, -1;
      var bEnd := info.start[0] + info.size - 1;
      var sEnd := |info.start| - 1;
      var sect := 0;
      while sect < |info.start|
        invariant sect <= |info.start|
        invariant sFirst == SectorStarting(info, first, sect)
        invariant sLast == SectorEnding(info, last, sect)
      {
        EndInBank(info, sect);
        var end: int := if sect == sEnd then bEnd else (info.start[sect + 1] as int) - 1;
        if !(first > end) && !(last < info.start[sect]) {
          if first == info.start[sect] { sFirst := sect; }
          if last == end { sLast := sect; }
        }
        sect := sect + 1;
      }
    }

    /** flash_fill_sect_ranges */
    method FillSectRanges(first: nat, last: nat, sFirst: array<int>, sLast: array<int>) returns (rcode: int, count: nat)
      requires OkBanks(banks) && sFirst.Length == sLast.Length == |banks| && sFirst != sLast
      modifies sFirst, sLast
      ensures var p := Fill(banks, 0, first, last);
              && rcode == p.rc && count == p.count
              && (rcode == 0 ==> forall j :: 0 <= j < |banks| ==> Range(sFirst[j], sLast[j]) == p.ranges[j])
    {
      hide StepBank, OkBank, Nones, Fill, SectorStarting, SectorEnding;
      count, rcode := 0, 0;
      var bank := 0;
      while bank < |banks|
        invariant bank <= |banks|
        invariant forall j :: 0 <= j < bank ==> sFirst[j] == sLast[j] == -1
      {
        sFirst[bank], sLast[bank] := -1, -1;
        bank := bank + 1;
      }
      ghost var whole := Fill(banks, 0, first, last);
      var addrFirst: nat := first;
      bank := 0;
      while bank < |banks| && addrFirst <= last
        invariant bank <= |banks| && rcode == 0
        invariant whole.rc == Fill(banks, bank, addrFirst, last).rc
        invariant whole.count == count + Fill(banks, bank, addrFirst, last).count
        invariant forall j :: 0 <= j < bank ==> Range(sFirst[j], sLast[j]) == whole.ranges[j]
        invariant forall j :: bank <= j < |banks| ==> sFirst[j] == sLast[j] == -1
        invariant whole.ranges[bank..] == Fill(banks, bank, addrFirst, last).ranges
      {
        var info := banks[bank];
        ghost var here := Fill(banks, bank, addrFirst, last);
        assert bank < |whole.ranges| && whole.ranges[bank] == here.ranges[0];
        assert whole.ranges[bank..][1..] == whole.ranges[bank + 1..];
        StepCases(info, addrFirst, last);
        StepOk(info, addrFirst, last);
        FillStep(banks, bank, addrFirst, last);
        if info.known {
          var bEnd := info.start[0] + info.size - 1;
          var sEnd := |info.start| - 1;
          sFirst[bank], sLast[bank] := ScanSectors(bank, addrFirst, last);
          if sFirst[bank] >= 0 {
            if sLast[bank] < 0 {
              if last > bEnd {
                sLast[bank] := sEnd;
              } else {
                return 1, count;
              }
            }
            if sLast[bank] < sFirst[bank] {
              return 1, count;
            }
            var sect := sLast[bank];
            addrFirst := (if sect == sEnd then bEnd + 1 else info.start[sect + 1]) % TOP;
            count := count + (sLast[bank] - sFirst[bank] + 1);
          } else if info.start[0] <= addrFirst < bEnd {
            return 1, count;
          } else if sLast[bank] >= 0 {
            return 1, count;
          }
        }
        bank := bank + 1;
      }
      FillStop(banks, bank, addrFirst, last);
      NonesAt(|banks| - bank);
      assert forall j :: bank <= j < |banks| ==> whole.ranges[j] == whole.ranges[bank..][j - bank];
    }

    /** flash_sect_erase: the first n planned calls in order; all of them, unless one fails. */
    method SectErase(first: nat, last: nat) returns (rcode: int, ghost n: nat)
      requires Valid()
      modifies `erased
      ensures !Planned(banks, first, last) ==> rcode == 1 && erased == old(erased)
      ensures Planned(banks, first, last) ==>
                var calls := Calls(0, Fill(banks, 0, first, last).ranges);
                && Erased(calls, n, rcode) && erased == old(erased) + calls[..n]
                && (rcode == 0 ==> n == |calls|)
    {
      hide StepBank, OkBank, Nones, Fill, Calls;
      n := 0;
      var sFirst, sLast := new int[|banks|], new int[|banks|];
      var planned;
      rcode, planned := FillSectRanges(first, last, sFirst, sLast);
      if planned != 0 && rcode == 0 {
        ghost var ranges := Fill(banks, 0, first, last).ranges;
        ghost var calls := Calls(0, ranges);
        var bank := 0;
        assert ranges[0..] == ranges && calls[0..] == calls;
        assert erased == old(erased) + calls[..0];
        while bank < |banks| && rcode == 0
          invariant bank <= |banks| && n <= |calls|
          invariant rcode == 0 ==> calls[n..] == Calls(bank, ranges[bank..])
          invariant Erased(calls, n, rcode) && erased == old(erased) + calls[..n]
          invariant forall j :: 0 <= j < |banks| ==> Range(sFirst[j], sLast[j]) == ranges[j]
        {
          CallsStep(bank, ranges, calls[n..]);
          if sFirst[bank] >= 0 {
            var call := Call(bank, sFirst[bank], sLast[bank]);
            assert calls[n] == calls[n..][0] == call && calls[n..][1..] == calls[n + 1..];
            assert old(erased) + calls[..n] + [call] == old(erased) + calls[..n + 1];
            rcode := driver(call);
            erased := erased + [call];
            n := n + 1;
          }
          bank := bank + 1;
        }
        CallsEnd(bank, ranges, calls, n);
      } else if rcode == 0 {
        rcode := 1;
      }
    }

    /** All n calls were made, all but the last one succeeded, and rcode is the last answer;
        fewer than all only after a failure. */
    ghost predicate Erased(calls: seq<Call>, n: nat, rcode: int) {
      && n <= |calls|
      && (forall m :: 0 <= m < n - 1 ==> driver(calls[m]) == 0)
      && (n > 0 ==> rcode == driver(calls[n - 1]))
      && (n == 0 ==> rcode == 0)
    }

    /** flash_sect_protect: exactly the chosen sectors change. */
    method SectProtect(p: int, first: nat, last: nat) returns (rcode: int)
      requires Valid()
      modifies `protect
      ensures Valid()
      ensures rcode == if Planned(banks, first, last) then 0 else 1
      ensures forall j, i :: 0 <= j < |banks| && 0 <= i < |banks[j].start| ==>
                protect[j][i] ==
                if Planned(banks, first, last) && Picked(Fill(banks, 0, first, last), 0, j, i) then p
                  else old(protect)[j][i]
    {
      hide StepBank, OkBank, Nones, Fill;
      var sFirst, sLast := new int[|banks|], new int[|banks|];
      var planned;
      rcode, planned := FillSectRanges(first, last, sFirst, sLast);
      if planned != 0 && rcode == 0 {
        ghost var plan := Fill(banks, 0, first, last);
        FillRanges(banks, 0, first, last);
        var bank := 0;
        while bank < |banks|
          invariant bank <= |banks| && Valid()
          invariant forall j :: 0 <= j < |banks| ==> Range(sFirst[j], sLast[j]) == plan.ranges[j]
          invariant forall j :: bank <= j < |banks| ==> protect[j] == old(protect)[j]
          invariant forall j, i :: 0 <= j < bank && 0 <= i < |banks[j].start| ==>
                      protect[j][i] == if Picked(plan, 0, j, i) then p else old(protect)[j][i]
        {
          assert OkRange(banks[0 + bank], plan.ranges[bank]);
          if banks[bank].known && 0 <= sFirst[bank] <= sLast[bank] {
            ProtectOne(bank, sFirst[bank], sLast[bank], p);
          }
          bank := bank + 1;
        }
      } else if rcode == 0 {
        rcode := 1;
      }
    }

    method ProtectOne(bank: nat, first: nat, last: nat, p: int)
      requires Valid() && bank < |banks| && first <= last < |banks[bank].start|
      modifies `protect
      ensures Valid()
      ensures forall j :: 0 <= j < |banks| && j != bank ==> protect[j] == old(protect)[j]
      ensures forall i :: 0 <= i < |banks[bank].start| ==>
                protect[bank][i] == if first <= i <= last then p else old(protect)[bank][i]
    {
      var i := first;
      while i <= last
        invariant first <= i <= last + 1 && |protect| == |banks|
        invariant forall j :: 0 <= j < |banks| && j != bank ==> protect[j] == old(protect)[j]
        invariant |protect[bank]| == |banks[bank].start|
        invariant forall q :: 0 <= q < |banks[bank].start| ==>
                    protect[bank][q] == if first <= q < i then p else old(protect)[bank][q]
      {
        protect := protect[bank := protect[bank][i := p]];
        i := i + 1;
      }
    }

    /** flash_sect_roundb: the end of the sector that holds the address. */
    method SectRoundb(addr: nat) returns (rc: int, r: int)
      requires OkBanks(banks)
      ensures rc == 0 ==> exists j, i :: InSector(banks, j, i, addr) && r == End(banks[j], i)
      ensures rc != 0 ==> rc == 1 && r == addr && forall j, i :: !InSector(banks, j, i, addr)
    {
      r := addr;
      var found := false;
      var bank := 0;
      while bank < |banks| && !found
        invariant bank <= |banks|
        invariant if found then exists j, i :: InSector(banks, j, i, addr) && r == End(banks[j], i)
                  else r == addr && forall j, i :: j < bank ==> !InSector(banks, j, i, addr)
      {
        var info := banks[bank];
        var i := 0;
        while i < |info.start| && !found
          invariant i <= |info.start|
          invariant if found then exists j, i :: InSector(banks, j, i, addr) && r == End(banks[j], i)
                    else r == addr && forall q :: q < i ==> !InSector(banks, bank, q, addr)
        {
          EndInBank(info, i);
          var sectorEnd: int := if i == |info.start| - 1 then info.start[0] + info.size - 1
            else (info.start[i + 1] as int) - 1;
          if info.start[i] <= addr <= sectorEnd {
            found := true;
            assert InSector(banks, bank, i, addr);
            if r < sectorEnd { r := sectorEnd; }
          }
          i := i + 1;
        }
        bank := bank + 1;
      }
      rc := if found then 0 else 1;
    }

    /** addr_spec behind its two numbers: `last` as given, or first + length - 1 in 32 bits
        rounded up to the end of its sector. */
    method AddrSpec(first: nat, second: nat, lenUsed: bool) returns (rc: int, last: int)
      requires OkBanks(banks) && first < TOP && second < TOP
      ensures !lenUsed ==> rc == 1 && last == second
      ensures lenUsed ==>
                var a := LastOf(first, second);
                && (rc == 1 || rc == -1)
                && (rc == 1 ==> EndsAt(a, last))
                && (rc == -1 ==> forall j, i :: !InSector(banks, j, i, a))
      ensures lenUsed && second > 0 && first + second <= TOP ==>
                && (rc == 1 ==> EndsAt(first + second - 1, last))
                && (rc == -1 ==> !Somewhere(first + second - 1))
    {
      LastIs(first, second);
      last := second;
      if lenUsed {
        last := LastOf(first, second);
        var bad;
        bad, last := SectRoundb(last);
        if bad > 0 { return -1, last; }
      }
      return 1, last;
    }

    /** `protect on|off <start> <end>` and `<start> +<length>`: the sectors planned for the range
        change, or none. In banks without gaps it succeeds exactly for ranges that start on a
        sector boundary and end on one (or, with a length, anywhere in flash), and changes
        exactly the sectors inside the range (or, with a length, all those it touches). */
    method DoProtect(p: int, first: nat, second: nat, lenUsed: bool, ghost at: nat) returns (rcode: int, last: int)
      requires Valid() && first < TOP && second < TOP
      modifies `protect
      ensures Valid() && (rcode == 0 || rcode == 1)
      ensures !lenUsed ==> last == second
      ensures lenUsed && Somewhere(LastOf(first, second)) ==> EndsAt(LastOf(first, second), last)
      ensures rcode == 0 <==>
              (lenUsed ==> Somewhere(LastOf(first, second))) && first < last && Planned(banks, first, last)
      ensures rcode != 0 ==> protect == old(protect)
      ensures rcode == 0 ==> forall j, i :: 0 <= j < |banks| && 0 <= i < |banks[j].start| ==>
                protect[j][i] == if Picked(Fill(banks, 0, first, last), 0, j, i) then p else old(protect)[j][i]
      ensures NoGaps(at) && !lenUsed ==> (rcode == 0 <==>
                first < second && StartsSector(banks, 0, first) && Stops(banks, 0, at, second))
      ensures NoGaps(at) && lenUsed ==> (rcode == 0 <==>
                first < last && StartsSector(banks, 0, first) && Somewhere(LastOf(first, second)))
      ensures NoGaps(at) && rcode == 0 ==> forall j, i :: IsSector(banks, 0, j, i) ==>
                protect[j][i] == if Meant(first, second, lenUsed, j, i) then p else old(protect)[j][i]
      ensures NoGaps(at) && rcode == 0 && lenUsed && second > 0 && first + second <= TOP ==>
                forall j, i :: IsSector(banks, 0, j, i) ==>
                  protect[j][i] ==
                  if first <= End(banks[j], i) && banks[j].start[i] < first + second then p else old(protect)[j][i]
    {
      hide StepBank, OkBank, Nones, Fill, StartsSector, EndsSector, Contiguous, FlashEnd, NoGaps, Planned, LastOf;
      LastIs(first, second);
      var rc;
      rc, last := AddrSpec(first, second, lenUsed);
      if rc < 0 { return 1, last; }
      EndOfRange(first, second, lenUsed, last);
      if first >= last { return 1, last; }
      rcode := SectProtect(p, first, last);
      if NoGaps(at) { RangeMeant(at, first, second, lenUsed, last); }
      assert rcode != 0 ==> forall j :: 0 <= j < |banks| ==> protect[j] == old(protect)[j];
    }

    /** Banks in the order of their addresses, each behind the one before it. */
    ghost predicate NoGaps(at: nat)
      requires OkBanks(banks)
    {
      Contiguous(banks, 0, at) && forall k :: 0 <= k < |banks| ==> banks[k].known || banks[k].start == []
    }

    /** What the plan for a range comes to in banks without gaps. */
    lemma RangeMeant(at: nat, first: nat, second: nat, lenUsed: bool, last: nat)
      requires OkBanks(banks) && NoGaps(at) && first < last < TOP
      requires if lenUsed then EndsAt(LastOf(first, second), last) else last == second
      ensures Planned(banks, first, last) <==>
              StartsSector(banks, 0, first) && (lenUsed || Stops(banks, 0, at, second))
      ensures Planned(banks, first, last) ==> forall j, i :: IsSector(banks, 0, j, i) ==>
                (Picked(Fill(banks, 0, first, last), 0, j, i) <==> Meant(first, second, lenUsed, j, i))
    {
      hide StepBank, OkBank, Nones, Fill, StartsSector, EndsSector, Contiguous, FlashEnd;
      PlanIsRange(banks, at, first, last);
      if lenUsed { LengthStops(at, first, second, last); }
      if Planned(banks, first, last) {
        forall j, i | IsSector(banks, 0, j, i)
          ensures Picked(Fill(banks, 0, first, last), 0, j, i) <==> Meant(first, second, lenUsed, j, i)
        {
          PickedIffInside(banks, 0, at, first, last, j, i);
          if lenUsed { MeetsIffInside(at, first, second, last, j, i); }
        }
      }
    }

    /** The sector of an address ends there. */
    ghost predicate EndsAt(a: nat, last: int) { exists j, i :: InSector(banks, j, i, a) && last == End(banks[j], i) }

    ghost predicate Somewhere(a: nat) { exists j, i :: InSector(banks, j, i, a) }

    /** The sectors that the two forms of the command mean. */
    predicate Meant(first: nat, second: nat, lenUsed: bool, j: nat, i: nat)
      requires j < |banks| && i < |banks[j].start|
    {
      if lenUsed then first <= End(banks[j], i) && banks[j].start[i] <= LastOf(first, second)
      else first <= banks[j].start[i] && End(banks[j], i) <= second
    }

    lemma EndOfRange(first: nat, second: nat, lenUsed: bool, last: int)
      requires OkBanks(banks) && second < TOP
      requires if lenUsed then EndsAt(LastOf(first, second), last)
               else last == second
      ensures 0 <= last < TOP
      ensures lenUsed ==> Somewhere(LastOf(first, second))
    {
      if lenUsed {
        var j, i :| InSector(banks, j, i, LastOf(first, second)) && last == End(banks[j], i);
        EndInBank(banks[j], i);
      }
    }

    lemma LengthStops(at: nat, first: nat, second: nat, last: nat)
      requires OkBanks(banks) && forall k :: 0 <= k < |banks| ==> banks[k].known || banks[k].start == []
      requires EndsAt(LastOf(first, second), last)
      ensures Stops(banks, 0, at, last)
    {
      var j, i :| InSector(banks, j, i, LastOf(first, second)) && last == End(banks[j], i);
      assert IsSector(banks, 0, j, i);
    }

    /** Once rounded, the sectors inside the range are those that the unrounded one touches. */
    lemma MeetsIffInside(at: nat, first: nat, second: nat, last: nat, j: nat, i: nat)
      requires OkBanks(banks) && Contiguous(banks, 0, at) && IsSector(banks, 0, j, i)
      requires forall k :: 0 <= k < |banks| ==> banks[k].known || banks[k].start == []
      requires StartsSector(banks, 0, first) && first <= last
      requires EndsAt(LastOf(first, second), last)
      ensures first <= banks[j].start[i] && End(banks[j], i) <= last <==>
              first <= End(banks[j], i) && banks[j].start[i] <= LastOf(first, second)
    {
      hide Contiguous;
      var a := LastOf(first, second);
      var j1, i1 :| InSector(banks, j1, i1, a) && last == End(banks[j1], i1);
      var j0, i0 :| IsSector(banks, 0, j0, i0) && banks[j0].start[i0] == first;
      EndInBank(banks[j], i);
      EndInBank(banks[j0], i0);
      Ordered(banks, 0, at, j, i, j0, i0);
      Ordered(banks, 0, at, j0, i0, j, i);
      Ordered(banks, 0, at, j, i, j1, i1);
      Ordered(banks, 0, at, j1, i1, j, i);
    }
  }

  /** Without a wrap it is the last byte of the range. */
  lemma LastIs(first: nat, length: nat)
    ensures length > 0 && first + length <= TOP ==> LastOf(first, length) == first + length - 1
  {
  }

  /** first + length - 1 */
  function LastOf(first: nat, length: nat): nat { (first + length - 1) % TOP }

  /** Sectors come in the order of their banks and numbers. */
  lemma {:induction false} Ordered(banks: seq<Bank>, k: nat, at: nat, j: nat, i: nat, j': nat, i': nat)
    requires OkBanks(banks) && k <= |banks| && Contiguous(banks, k, at)
    requires IsSector(banks, k, j, i) && IsSector(banks, k, j', i')
    ensures j < j' || (j == j' && i < i') ==> End(banks[j], i) < banks[j'].start[i']
    decreases |banks| - k
  {
    var b := banks[k];
    if j == j' && i < i' {
      SectorsApart(banks[j], i, i');
    } else if j < j' && k == j {
      SectorsBehind(banks, k + 1, NextAt(b), j', i');
      EndInBank(b, i);
    } else if j < j' {
      Ordered(banks, k + 1, if b.known then NextAt(b) else at, j, i, j', i');
    }
  }

  lemma CallsStep(k: nat, ranges: seq<Range>, rest: seq<Call>)
    requires k < |ranges| && rest == Calls(k, ranges[k..])
    ensures ranges[k].first < 0 ==> rest == Calls(k + 1, ranges[k + 1..])
    ensures ranges[k].first >= 0 ==>
              rest != [] && rest[0] == Call(k, ranges[k].first, ranges[k].last)
                && rest[1..] == Calls(k + 1, ranges[k + 1..])
  {
    assert ranges[k..][0] == ranges[k] && ranges[k..][1..] == ranges[k + 1..];
  }

  lemma CallsEnd(k: nat, ranges: seq<Range>, calls: seq<Call>, n: nat)
    requires n <= |calls| && k <= |ranges|
    ensures k == |ranges| && calls[n..] == Calls(k, ranges[k..]) ==> n == |calls|
  {
    assert k == |ranges| ==> ranges[k..] == [];
  }

  /** The step in terms of what the scan over the sectors found. */
  lemma StepCases(b: Bank, first: nat, last: nat)
    requires OkBank(b)
    ensures StepBank(b, first, last) ==
            if !b.known then Skip
            else
              var sf, sl := SectorStarting(b, first, |b.start|), SectorEnding(b, last, |b.start|);
              if sf >= 0 then
                if sl >= 0 then Take(Range(sf, sl))
                else if last > BankEnd(b) then Take(Range(sf, |b.start| - 1))
                else Fail
              else if b.start[0] <= first < BankEnd(b) || sl >= 0 then Fail
              else Skip
    ensures b.known ==> b.start != []
  {
  }

  lemma FillStep(banks: seq<Bank>, k: nat, first: nat, last: nat)
    requires OkBanks(banks) && k < |banks| && first <= last
    ensures var p, s := Fill(banks, k, first, last), StepBank(banks[k], first, last);
            && (s.Fail? ==> p.rc == 1 && p.count == 0)
            && (s.Skip? ==>
                  var q := Fill(banks, k + 1, first, last);
                  p.rc == q.rc && p.count == q.count && p.ranges[0] == NONE && p.ranges[1..] == q.ranges)
            && (s.Take? ==>
                  && 0 <= s.r.last < |banks[k].start| && Size(s.r) == s.r.last - s.r.first + 1
                  && var q := Fill(banks, k + 1, Behind(banks[k], s.r.last), last);
                     p.rc == q.rc && p.count == Size(s.r) + q.count && p.ranges[0] == s.r && p.ranges[1..] == q.ranges)
  {
    hide StepBank, OkBank;
    StepOk(banks[k], first, last);
  }

  lemma FillStop(banks: seq<Bank>, k: nat, first: nat, last: nat)
    requires OkBanks(banks) && k <= |banks| && (k == |banks| || first > last)
    ensures Fill(banks, k, first, last) == Plan(0, Nones(|banks| - k), 0)
  {
  }

  lemma NonesAt(n: nat)
    ensures |Nones(n)| == n && forall i :: 0 <= i < n ==> Nones(n)[i] == NONE
  {
  }
}

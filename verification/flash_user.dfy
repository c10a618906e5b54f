/** Commands on two small flash devices, in numbers. */
module FlashUser {
  import opened FlashPlan
  import opened FlashExact
  import opened FlashCommands

  /** An unknown bank, and three sectors of 64 KB. */
  const BANKS: seq<Bank> := [Bank(false, [], 0), Bank(true, [0, 0x1_0000, 0x2_0000], 0x3_0000)]

  lemma BanksOk()
    ensures OkBanks(BANKS) && Contiguous(BANKS, 0, 0) && FlashEnd(BANKS, 0, 0) == 0x3_0000
    ensures forall k :: 0 <= k < |BANKS| ==> BANKS[k].known || BANKS[k].start == []
  {
    assert FlashEnd(BANKS, 2, 0x3_0000) == 0x3_0000;
    assert FlashEnd(BANKS, 1, 0) == 0x3_0000;
    assert Contiguous(BANKS, 2, 0x3_0000) && Contiguous(BANKS, 1, 0);
  }

  lemma Ends()
    ensures End(BANKS[1], 0) == 0xFFFF && End(BANKS[1], 1) == 0x1_FFFF && End(BANKS[1], 2) == 0x2_FFFF
    ensures StartsSector(BANKS, 0, 0)
  {
    assert IsSector(BANKS, 0, 1, 0);
  }

  /** `protect on 0 +10000`: the first sector and no other. */
  method ProtectFirst(driver: Call -> int) returns (rcode: int, last: int, protect: seq<seq<int>>)
    ensures rcode == 0 && last == 0xFFFF && protect == [[], [1, 0, 0]]
  {
    hide Contiguous, FlashEnd, StartsSector, OkBank, InSector, End, LastOf;
    BanksOk();
    Ends();
    OnlyFirst();
    var flash := new Flash(BANKS, driver, [[], [0, 0, 0]]);
    rcode, last := flash.DoProtect(1, 0, 0x1_0000, true, 0);
    protect := flash.protect;
    Changed(protect, rcode == 0);
  }

  lemma OnlyFirst()
    ensures InSector(BANKS, 1, 0, 0xFFFF) && LastOf(0, 0x1_0000) == 0xFFFF
    ensures forall j, i :: InSector(BANKS, j, i, 0xFFFF) ==> j == 1 && i == 0
  {
  }

  lemma Changed(protect: seq<seq<int>>, done: bool)
    requires |protect| == 2 && |protect[0]| == 0 && |protect[1]| == 3
    requires done ==> forall j, i :: IsSector(BANKS, 0, j, i) ==>
               protect[j][i] == if 0 <= End(BANKS[j], i) && BANKS[j].start[i] < 0x1_0000 then 1 else 0
    ensures done ==> protect == [[], [1, 0, 0]]
  {
    hide End;
    Ends();
    assert IsSector(BANKS, 0, 1, 0) && IsSector(BANKS, 0, 1, 1) && IsSector(BANKS, 0, 1, 2);
    assert done ==> protect[1][0] == 1 && protect[1][1] == 0 && protect[1][2] == 0;
    assert done ==> protect[1] == [1, 0, 0];
    assert protect[0] == [];
    assert protect == [protect[0], protect[1]];
  }

  lemma EraseTwo()
    ensures Fill(BANKS, 0, 0x1_0000, 0x2_FFFF) == Plan(0, [NONE, Range(1, 2)], 2)
    ensures Calls(0, [Range(-1, -1), Range(1, 2)]) == [Call(1, 1, 2)]
  {
    BanksOk();
    Ends();
    OneSector(BANKS[1], 0x1_0000, SectorStarting(BANKS[1], 0x1_0000, 3), 1);
    OneSector(BANKS[1], 0x2_FFFF, SectorEnding(BANKS[1], 0x2_FFFF, 3), 2);
    assert StepBank(BANKS[1], 0x1_0000, 0x2_FFFF) == Take(Range(1, 2));
    hide StepBank;
    var next := Behind(BANKS[1], 2);
    assert Fill(BANKS, 2, next, 0x2_FFFF) == Plan(0, [], 0);
    assert Fill(BANKS, 1, 0x1_0000, 0x2_FFFF) == Plan(0, [Range(1, 2)], 2);
    assert [Range(-1, -1), Range(1, 2)][1..] == [Range(1, 2)] && [Range(1, 2)][1..] == [];
    assert Calls(1, [Range(1, 2)]) == [Call(1, 1, 2)] + [];
  }

  /** `erase 10000 2ffff`: one call for the two sectors, and its answer. */
  method EraseRest(driver: Call -> int) returns (rcode: int, erased: seq<Call>)
    ensures erased == [Call(1, 1, 2)] && rcode == driver(Call(1, 1, 2))
  {
    hide Fill, OkBank, Calls;
    BanksOk();
    EraseTwo();
    var flash := new Flash(BANKS, driver, [[], [0, 0, 0]]);
    ghost var n;
    rcode, n := flash.SectErase(0x1_0000, 0x2_FFFF);
    erased := flash.erased;
  }

  /** A bank at the top of the address space in front of one at 0. */
  const TOP_FIRST: seq<Bank> := [Bank(true, [0xFFFE_0000, 0xFFFF_0000], 0x2_0000), Bank(true, [0, 0x1_0000], 0x2_0000)]

  /** Asking for the first selects the second as well. */
  lemma TopAndZero()
    ensures OkBanks(TOP_FIRST)
    ensures Fill(TOP_FIRST, 0, 0xFFFE_0000, 0xFFFF_FFFF) == Plan(0, [Range(0, 1), Range(0, 1)], 4)
  {
    var a, b, last := TOP_FIRST[0], TOP_FIRST[1], 0xFFFF_FFFF;
    OneSector(a, 0xFFFE_0000, SectorStarting(a, 0xFFFE_0000, 2), 0);
    OneSector(a, last, SectorEnding(a, last, 2), 1);
    OneSector(b, 0, SectorStarting(b, 0, 2), 0);
    assert StepBank(a, 0xFFFE_0000, last) == Take(Range(0, 1)) && Behind(a, 1) == 0;
    assert StepBank(b, 0, last) == Take(Range(0, 1));
    hide StepBank;
    var next := Behind(b, 1);
    assert Fill(TOP_FIRST, 2, next, last) == Plan(0, [], 0);
    assert Fill(TOP_FIRST, 1, 0, last) == Plan(0, [Range(0, 1)], 2);
  }
}

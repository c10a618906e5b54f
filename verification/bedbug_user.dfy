/** Branch instructions in numbers: their encodings, when they are taken, and a step. */
module BedbugUser {
  import opened BedbugFields
  import opened Numbers
  import opened BedbugStep
  import Isa = BedbugIsa
  import opened Options

  // ---- encodings ----

  lemma Opcodes(aa: nat, lk: nat)
    ensures BOpcode(16, aa, lk) == 0x4000_0000 + 2 * aa + lk && BOpcode(18, aa, lk) == 0x4800_0000 + 2 * aa + lk
    ensures XLOpcode(19, 16, lk) == 0x4C00_0020 + lk && XLOpcode(19, 528, lk) == 0x4C00_0420 + lk
  {
  }

  /** The branches to the link register and to the count register. */
  lemma RegisterBranches(bo: nat, bi: nat, lk: nat)
    requires bo < 32 && bi < 32 && lk < 2
    ensures var i := 0x4C00_0020 + bo * 0x20_0000 + bi * 0x1_0000 + lk;
            Isa.KindOf(i) == Isa.Bclr && Isa.BO(i) == bo && Isa.BI(i) == bi && (Isa.LK(i) <==> lk == 1)
    ensures var i := 0x4C00_0420 + bo * 0x20_0000 + bi * 0x1_0000 + lk;
            Isa.KindOf(i) == Isa.Bcctr && Isa.BO(i) == bo && Isa.BI(i) == bi && (Isa.LK(i) <==> lk == 1)
  {
    Parts(bo, bi, 16, lk);
    Parts(bo, bi, 528, lk);
  }

  lemma Parts(bo: nat, bi: nat, extended: nat, lk: nat)
    requires bo < 32 && bi < 32 && extended < 1024 && lk < 2
    ensures var i := 19 * 0x400_0000 + bo * 0x20_0000 + bi * 0x1_0000 + 2 * extended + lk;
            && i / 0x400_0000 % 64 == 19 && i / 2 % 1024 == extended
            && i / 0x20_0000 % 32 == bo && i / 0x1_0000 % 32 == bi && i % 2 == lk
  {
    var i := 19 * 0x400_0000 + bo * 0x20_0000 + bi * 0x1_0000 + 2 * extended + lk;
    var low := 2 * extended + lk;
    UniqueMod(i, 19, bo * 0x20_0000 + bi * 0x1_0000 + low, 0x400_0000);
    UniqueMod(i, 19 * 32 + bo, bi * 0x1_0000 + low, 0x20_0000);
    UniqueMod(i, (19 * 32 + bo) * 32 + bi, low, 0x1_0000);
    UniqueMod(19 * 32 + bo, 19, bo, 32);
    UniqueMod((19 * 32 + bo) * 32 + bi, 19 * 32 + bo, bi, 32);
    var half := ((19 * 32 + bo) * 32 + bi) * 0x8000 + extended;
    UniqueMod(i, half, lk, 2);
    UniqueMod(half, ((19 * 32 + bo) * 32 + bi) * 32, extended, 1024);
  }

  // ---- when a branch is taken ----

  /** The sixteen meanings of the first four bits of BO. */
  function Goes(bo: nat, ctr: nat, bit: bool): bool {
    match bo / 2
    case 0 => ctr != 1 && !bit
    case 1 => ctr == 1 && !bit
    case 2 => !bit
    case 3 => !bit
    case 4 => ctr != 1 && bit
    case 5 => ctr == 1 && bit
    case 6 => bit
    case 7 => bit
    case 8 => ctr != 1
    case 12 => ctr != 1
    case 9 => ctr == 1
    case 13 => ctr == 1
    case _ => true
  }

  /** The architecture takes a branch exactly in those cases, the count register before its
      decrement; the stepper lists those in which no z bit is set. */
  lemma BranchTable(bo: nat, bi: nat, ctr: nat, cr: nat)
    requires bo < 32 && bi < 32 && ctr < 0x1_0000_0000
    ensures Isa.CtrOk(bo, ctr) && Isa.CondOk(bo, bi, cr) <==> Goes(bo, ctr, Isa.CRBit(cr, bi))
    ensures Listed(bo) <==> bo / 2 !in {3, 7, 11, 12, 13, 14, 15}
  {
    hide Isa.CRBit;
    OneLess(ctr);
    var a := bo / 2;
    assert 0 <= a < 16 && bo / 4 == a / 2 && bo / 8 == a / 4 && bo / 16 == a / 8;
  }

  lemma OneLess(ctr: nat)
    requires ctr < 0x1_0000_0000
    ensures (ctr + Isa.WORD - 1) % Isa.WORD == if ctr == 0 then 0xFFFF_FFFF else ctr - 1
  {
  }

  /** Bits of the condition register from the left. */
  lemma ConditionBit(cr: nat, bi: nat, above: nat, bit: nat, below: nat)
    requires bi < 32 && bit < 2 && below < Pow2(31 - bi) && cr == (2 * above + bit) * Pow2(31 - bi) + below
    ensures Isa.CRBit(cr, bi) <==> bit == 1
  {
    UniqueMod(cr, 2 * above + bit, below, Pow2(31 - bi));
    UniqueMod(2 * above + bit, above, bit, 2);
  }

  /** Where the architecture goes: the register without its last two bits. */
  lemma WordTargets(i: nat, r: Isa.Regs)
    ensures Isa.KindOf(i) == Isa.Bclr ==> Isa.Target(i, r) % 4 == 0 && Isa.Target(i, r) <= r.lr < Isa.Target(i, r) + 4
    ensures Isa.KindOf(i) == Isa.Bcctr ==>
              Isa.Target(i, r) % 4 == 0 && Isa.Target(i, r) <= r.ctr < Isa.Target(i, r) + 4
  {
    hide Isa.KindOf;
    Down(r.lr);
    Down(r.ctr);
  }

  lemma Down(a: nat)
    ensures (a - a % 4) % 4 == 0 && a - a % 4 <= a < a - a % 4 + 4
  {
    UniqueMod(a - a % 4, a / 4, 0, 4);
  }

  // ---- a step ----

  const OPERANDS: seq<Operand> :=
    [Operand(14, 2), Operand(24, 2), Operand(5, 21), Operand(5, 16), Operand(1, 1), Operand(1, 0)]

  const TABLE: Table := Table(OPERANDS, 1, 2, 3, 4, 5, 6)

  const REGS: Isa.Regs := Isa.Regs(0x1000, 0, 0, 0x2004)

  lemma Return(lk: nat)
    requires lk < 2
    ensures OkTable(TABLE) && Describes(TABLE, Opcode(0x4C00_0020 + lk, [3, 4, 6]), 0x4E80_0020 + lk)
    ensures CodeNext(0x4E80_0020 + lk, REGS, false) == 0x2004
    ensures CodeNext(0x4E80_0020 + lk, REGS, true) == if lk == 0 then 0x2004 else 0x1004
  {
    hide Isa.KindOf, Isa.BO, Isa.BI, Isa.LK, Isa.CtrOk, Isa.CondOk, XLOpcode, BOpcode;
    Opcodes(0, lk);
    RegisterBranches(20, 0, lk);
    BranchTable(20, 0, 0, 0);
  }

  /** A return goes to the link register; a step over a call through it to the next instruction. */
  method StepReturns() returns (back: nat, call: nat, over: nat)
    ensures back == 0x2004 && call == 0x2004 && over == 0x1004
  {
    hide OkTable, Describes, CodeNext;
    Return(0);
    Return(1);
    var ok;
    ok, back := FindNextAddress(TABLE, Some(Opcode(0x4C00_0020, [3, 4, 6])), 0x4E80_0020, REGS, false);
    ok, call := FindNextAddress(TABLE, Some(Opcode(0x4C00_0021, [3, 4, 6])), 0x4E80_0021, REGS, false);
    ok, over := FindNextAddress(TABLE, Some(Opcode(0x4C00_0021, [3, 4, 6])), 0x4E80_0021, REGS, true);
  }
}

/** Branch instructions as section 2.4.1 of the PowerPC User Instruction Set Architecture
    Book I defines them. */
module BedbugIsa {
  import F = BedbugFields

  const WORD: nat := F.WORD

  datatype Regs = Regs(nip: nat, ctr: nat, cr: nat, lr: nat)

  predicate OkRegs(r: Regs) { r.nip < WORD && r.ctr < WORD && r.cr < WORD && r.lr < WORD }

  datatype Kind = Bc | B | Bcctr | Bclr | NoBranch

  /** Primary opcode in bits 0:5, extended opcode in bits 21:30. */
  function KindOf(i: nat): Kind {
    var primary, extended := i / 0x400_0000 % 64, i / 2 % 1024;
    if primary == 16 then Bc
    else if primary == 18 then B
    else if primary == 19 && extended == 528 then Bcctr
    else if primary == 19 && extended == 16 then Bclr
    else NoBranch
  }

  function AA(i: nat): bool { i / 2 % 2 == 1 }

  function LK(i: nat): bool { i % 2 == 1 }

  /** Bits 6:10 and 11:15. */
  function BO(i: nat): nat { i / 0x20_0000 % 32 }

  function BI(i: nat): (r: nat)
    ensures r < 32
  {
    i / 0x1_0000 % 32
  }

  /** Bit k of BO, counted from the left. */
  function BOBit(bo: nat, k: nat): bool
    requires k < 5
  {
    match k
    case 0 => bo / 16 % 2 == 1
    case 1 => bo / 8 % 2 == 1
    case 2 => bo / 4 % 2 == 1
    case 3 => bo / 2 % 2 == 1
    case _ => bo % 2 == 1
  }

  /** Bit k of the condition register, counted from the left. */
  function CRBit(cr: nat, k: nat): bool
    requires k < 32
  {
    cr / F.Pow2(31 - k) % 2 == 1
  }

  /** If BO2 is 0 the count register is decremented. */
  function CtrAfter(bo: nat, ctr: nat): nat { if BOBit(bo, 2) then ctr else (ctr + WORD - 1) % WORD }

  function CtrOk(bo: nat, ctr: nat): bool {
    BOBit(bo, 2) || ((CtrAfter(bo, ctr) != 0) != BOBit(bo, 3))
  }

  function CondOk(bo: nat, bi: nat, cr: nat): bool
    requires bi < 32
  {
    BOBit(bo, 0) || CRBit(cr, bi) == BOBit(bo, 1)
  }

  /** bcctr must not ask for the decrement. */
  predicate ValidForm(i: nat) { KindOf(i) == Bcctr ==> BOBit(BO(i), 2) }

  function Taken(i: nat, r: Regs): bool {
    match KindOf(i)
    case B => true
    case NoBranch => false
    case Bcctr => CondOk(BO(i), BI(i), r.cr)
    case _ => CtrOk(BO(i), r.ctr) && CondOk(BO(i), BI(i), r.cr)
  }

  /** Two's complement. */
  function Exts(v: nat, half: nat): int { if v >= half then v - 2 * half else v }

  function Displacement(i: nat): int {
    if KindOf(i) == B then 4 * Exts(i / 4 % 0x100_0000, 0x80_0000) else 4 * Exts(i / 4 % 0x4000, 0x2000)
  }

  function Cia(r: Regs): nat { r.nip - r.nip % 4 }

  function Target(i: nat, r: Regs): nat {
    match KindOf(i)
    case Bcctr => r.ctr - r.ctr % 4
    case Bclr => r.lr - r.lr % 4
    case _ => if AA(i) then Displacement(i) % WORD else (Cia(r) + Displacement(i)) % WORD
  }

  function Sequential(r: Regs): nat { (Cia(r) + 4) % WORD }

  /** The next instruction to run; stepping over a call that sets LR it is the one behind it. */
  function Next(i: nat, r: Regs, over: bool): nat {
    if Taken(i, r) && !(over && LK(i)) then Target(i, r) else Sequential(r)
  }
}

/** find_next_address: where a step, or a step over a call, stops next. */
module BedbugStep {
  import opened BedbugFields
  import opened Numbers
  import opened BedbugTargets
  import Isa = BedbugIsa
  import opened Options

  /** struct opcode: the bits an instruction must have, and its operands. */
  datatype Opcode = Opcode(opcode: nat, fields: seq<nat>)

  /** The operand table and the numbers (from 1) of the operands that matter here. */
  datatype Table = Table(operands: seq<Operand>, bd: nat, li: nat, bo: nat, bi: nat, aa: nat, lk: nat)

  predicate At(t: Table, n: nat, o: Operand) { 1 <= n <= |t.operands| && t.operands[n - 1] == o }

  /** The fields of the architecture: offset and width as bits 0 to 31 put them. */
  predicate OkTable(t: Table) {
    && At(t, t.bd, Operand(14, 2)) && At(t, t.li, Operand(24, 2)) && At(t, t.bo, Operand(5, 21))
    && At(t, t.bi, Operand(5, 16)) && At(t, t.aa, Operand(1, 1)) && At(t, t.lk, Operand(1, 0))
    && |t.operands| <= 255
  }

  /** B_OPCODE and I_OPCODE, XL_OPCODE */
  function BOpcode(primary: nat, aa: nat, lk: nat): nat { primary * 0x400_0000 + 2 * aa + lk }

  function XLOpcode(primary: nat, extended: nat, lk: nat): nat { primary * 0x400_0000 + 2 * extended + lk }

  predicate Has(op: Opcode, n: nat) { n in op.fields }

  /** The table entry that find_opcode returns for the instruction. */
  predicate Describes(t: Table, op: Opcode, i: nat) {
    && (forall n :: n in op.fields ==> n > 0)
    && match Isa.KindOf(i)
       case Bc => op.opcode == BOpcode(16, i / 2 % 2, i % 2) && Has(op, t.bd) && Has(op, t.bo) && Has(op, t.bi)
            && Has(op, t.aa) && Has(op, t.lk)
       case B => op.opcode == BOpcode(18, i / 2 % 2, i % 2) && Has(op, t.li) && Has(op, t.aa) && Has(op, t.lk)
       case Bcctr => op.opcode == XLOpcode(19, 528, i % 2) && Has(op, t.bo) && Has(op, t.bi) && Has(op, t.lk)
       case Bclr => op.opcode == XLOpcode(19, 16, i % 2) && Has(op, t.bo) && Has(op, t.bi) && Has(op, t.lk)
       case NoBranch => !Branching(op.opcode)
  }

  predicate Branching(opcode: nat) {
    || opcode in {BOpcode(16, 0, 0), BOpcode(16, 0, 1), BOpcode(16, 1, 0), BOpcode(16, 1, 1)}
    || opcode in {BOpcode(18, 0, 0), BOpcode(18, 0, 1), BOpcode(18, 1, 0), BOpcode(18, 1, 1)}
    || opcode in {XLOpcode(19, 528, 0), XLOpcode(19, 528, 1), XLOpcode(19, 16, 0), XLOpcode(19, 16, 1)}
  }

  /** The BO encodings that the switch lists: those whose z bits are 0. */
  predicate Listed(bo: nat) { bo / 2 in {0, 1, 2, 4, 5, 6, 8, 9, 10} }

  /** get_operand_value */
  method GetOperandValue(t: Table, op: Opcode, instr: nat, field: nat) returns (found: bool, value: nat)
    requires forall n :: n in op.fields ==> n > 0
    requires 1 <= field <= |t.operands|
    ensures found <==> field in op.fields
    ensures found ==> value == Field(instr, t.operands[field - 1])
  {
    value := 0;
    var i := 0;
    while i < |op.fields|
      invariant i <= |op.fields| && forall j :: 0 <= j < i ==> op.fields[j] != field
    {
      if op.fields[i] == field {
        return true, Field(instr, t.operands[op.fields[i] - 1]);
      }
      i := i + 1;
    }
    return false, 0;
  }

  /** The switch over BO: both tests pass exactly when the architecture's do, for the listed
      encodings, and never for the others. */
  method TestBranch(bo: nat, bi: nat, ctr0: nat, cr: nat) returns (ctrOk: bool, condOk: bool)
    requires bo < 32 && bi < 32 && ctr0 < WORD && cr < WORD
    ensures ctrOk && condOk <==> Listed(bo) && Isa.CtrOk(bo, ctr0) && Isa.CondOk(bo, bi, cr)
  {
    hide Shr, Pow2;
    BitIs(cr, bi);
    var ctr := ctr0;
    ctrOk, condOk := false, false;
    var bit := Shr(cr, 31 - bi) % 2 == 1;
    match bo / 2 {
      case 0 =>
        ctr := (ctr + WORD - 1) % WORD;
        if ctr != 0 { ctrOk := true; }
        condOk := !bit;
      case 1 =>
        ctr := (ctr + WORD - 1) % WORD;
        if ctr == 0 { ctrOk := true; }
        condOk := !bit;
      case 2 =>
        ctrOk := true;
        condOk := !bit;
      case 4 =>
        ctr := (ctr + WORD - 1) % WORD;
        if ctr != 0 { ctrOk := true; }
        condOk := bit;
      case 5 =>
        ctr := (ctr + WORD - 1) % WORD;
        if ctr == 0 { ctrOk := true; }
        condOk := bit;
      case 6 =>
        ctrOk := true;
        condOk := bit;
      case 8 =>
        ctr := (ctr + WORD - 1) % WORD;
        if ctr != 0 { ctrOk, condOk := true, true; }
      case 9 =>
        ctr := (ctr + WORD - 1) % WORD;
        if ctr == 0 { ctrOk, condOk := true, true; }
      case 10 =>
        ctrOk, condOk := true, true;
      case _ =>
    }
  }

  /** A branch that the code takes: both tests are made whatever the branch goes to. */
  predicate Steps(i: nat, r: Isa.Regs) {
    match Isa.KindOf(i)
    case B => true
    case NoBranch => false
    case _ => Listed(Isa.BO(i)) && Isa.CtrOk(Isa.BO(i), r.ctr) && Isa.CondOk(Isa.BO(i), Isa.BI(i), r.cr)
  }

  /** In a valid form these are the branches that are taken, of the encodings listed. */
  lemma StepsIsTaken(i: nat, r: Isa.Regs)
    requires Isa.ValidForm(i)
    ensures Steps(i, r) <==> Isa.Taken(i, r) && (Isa.KindOf(i) == Isa.B || Listed(Isa.BO(i)))
  {
    hide Listed, Isa.CondOk, Isa.BI, Isa.BO;
  }

  /** The target as the code computes it: LR and CTR with all their bits. */
  function CodeTarget(i: nat, r: Isa.Regs): nat {
    match Isa.KindOf(i)
    case Bcctr => r.ctr
    case Bclr => r.lr
    case _ => Isa.Target(i, r)
  }

  function CodeNext(i: nat, r: Isa.Regs, over: bool): nat {
    if Steps(i, r) && !(over && Isa.LK(i)) then CodeTarget(i, r) else Isa.Sequential(r)
  }

  /** The link or count register that the branch goes to is word-aligned. */
  predicate Aligned(i: nat, r: Isa.Regs) {
    match Isa.KindOf(i)
    case Bcctr => r.ctr % 4 == 0
    case Bclr => r.lr % 4 == 0
    case _ => true
  }

  /** The stepper agrees with the architecture exactly when: the branch is not taken; or it is
      a call that is stepped over; or its BO encoding is listed and its register is aligned; or
      its encoding is not listed but it goes to the following instruction anyway. */
  lemma AgreesIff(i: nat, r: Isa.Regs, over: bool)
    requires i < WORD && Isa.OkRegs(r) && Isa.ValidForm(i)
    ensures CodeNext(i, r, over) == Isa.Next(i, r, over) <==>
              || !Isa.Taken(i, r)
              || (over && Isa.LK(i))
              || (if Isa.KindOf(i) == Isa.B || Listed(Isa.BO(i)) then Aligned(i, r)
                  else Isa.Target(i, r) == Isa.Sequential(r))
  {
    hide Isa.Taken, Isa.BO, Isa.Sequential, Listed, Isa.Displacement, Steps;
    StepsIsTaken(i, r);
  }

  /** A branch that the architecture takes and the stepper does not: "branch if CR bit 0 is
      clear" with the z bit set, four instructions ahead. */
  lemma IgnoredBitMatters()
    ensures var i, r := 0x40C0_0010, Isa.Regs(0x1000, 0, 0, 0);
            Isa.ValidForm(i) && Isa.Next(i, r, false) == 0x1010 && CodeNext(i, r, false) == 0x1004
  {
    hide Isa.KindOf, Isa.BO, Isa.BI, Isa.AA, Isa.LK, Isa.Displacement, Isa.CtrOk, Isa.CondOk;
    IgnoredFields();
    IgnoredTests();
  }

  lemma IgnoredTests()
    ensures Isa.CtrOk(6, 0) && Isa.CondOk(6, 0, 0) && !Listed(6)
  {
    hide Pow2;
    assert 0 / Pow2(31) == 0;
  }

  lemma IgnoredFields()
    ensures var i := 0x40C0_0010;
            && Isa.KindOf(i) == Isa.Bc && Isa.BO(i) == 6 && Isa.BI(i) == 0 && !Isa.AA(i) && !Isa.LK(i)
            && Isa.Displacement(i) == 0x10
  {
  }

  /** What the switch over the opcode finds out about the instruction. */
  datatype Branch = Branch(addr: nat, aa: nat, lk: nat, bo: nat, bi: nat, conditional: bool, branch: bool)

  method DecodeBranch(t: Table, o: Opcode, instr: nat, r: Isa.Regs) returns (found: bool, b: Branch)
    requires OkTable(t) && Isa.OkRegs(r) && instr < WORD && Describes(t, o, instr)
    ensures found && (b.branch <==> Isa.KindOf(instr) != Isa.NoBranch)
    ensures b.conditional <==> Isa.KindOf(instr) in {Isa.Bc, Isa.Bcctr, Isa.Bclr}
    ensures b.branch ==> b.lk == instr % 2
    ensures b.conditional ==> b.bo == Isa.BO(instr) && b.bi == Isa.BI(instr)
    ensures Isa.KindOf(instr) in {Isa.Bc, Isa.B} ==>
              b.addr == Isa.Displacement(instr) % WORD && b.aa == instr / 2 % 2
    ensures Isa.KindOf(instr) in {Isa.Bcctr, Isa.Bclr} ==> b.aa == 1
    ensures Isa.KindOf(instr) == Isa.Bcctr ==> b.addr == r.ctr
    ensures Isa.KindOf(instr) == Isa.Bclr ==> b.addr == r.lr
  {
    hide Field, Branching, SignedField;
    FieldsAre(instr);
    OpcodeKinds(t, o, instr);
    SignedIs(instr / 4 % 0x4000, 0x2000);
    SignedIs(instr / 4 % 0x100_0000, 0x80_0000);
    var addr: int, aa: nat, lk: nat, bo: nat, bi: nat := 0, 0, 0, 0, 0;
    var conditional, branch := false, false;
    b := Branch(0, 0, 0, 0, 0, false, false);
    if o.opcode in {BOpcode(16, 0, 0), BOpcode(16, 0, 1), BOpcode(16, 1, 0), BOpcode(16, 1, 1)} {
      var v;
      found, v := GetOperandValue(t, o, instr, t.bd);
      if !found { return; }
      found, bo, bi, lk := ConditionFields(t, o, instr);
      if !found { return; }
      found, aa := GetOperandValue(t, o, instr, t.aa);
      if !found { return; }
      addr := SignedField(v, 0x2000) % WORD;
      conditional, branch := true, true;
    } else if o.opcode in {BOpcode(18, 0, 0), BOpcode(18, 0, 1), BOpcode(18, 1, 0), BOpcode(18, 1, 1)} {
      var v;
      found, v := GetOperandValue(t, o, instr, t.li);
      if !found { return; }
      found, aa := GetOperandValue(t, o, instr, t.aa);
      if !found { return; }
      found, lk := GetOperandValue(t, o, instr, t.lk);
      if !found { return; }
      addr := SignedField(v, 0x80_0000) % WORD;
      branch := true;
    } else if o.opcode in {XLOpcode(19, 528, 0), XLOpcode(19, 528, 1)} {
      found, bo, bi, lk := ConditionFields(t, o, instr);
      if !found { return; }
      addr := r.ctr;
      aa, conditional, branch := 1, true, true;
    } else if o.opcode in {XLOpcode(19, 16, 0), XLOpcode(19, 16, 1)} {
      found, bo, bi, lk := ConditionFields(t, o, instr);
      if !found { return; }
      addr := r.lr;
      aa, conditional, branch := 1, true, true;
    }
    found, b := true, Branch(addr, aa, lk, bo, bi, conditional, branch);
  }

  /** find_next_address: FALSE exactly when the opcode is unknown. */
  method FindNextAddress(t: Table, op: Option<Opcode>, instr: nat, r: Isa.Regs, over: bool)
    returns (ok: bool, nextaddr: nat)
    requires OkTable(t) && Isa.OkRegs(r) && instr < WORD
    requires op.Some? ==> Describes(t, op.value, instr)
    ensures ok <==> op.Some?
    ensures ok ==> nextaddr == CodeNext(instr, r, over)
  {
    hide Field, Describes, OkTable, Isa.Displacement, Isa.CondOk, Listed, Isa.BI, Isa.BO;
    ok, nextaddr := false, 0;
    if op.None? { return; }
    var pc := r.nip - r.nip % 4;
    var b;
    ok, b := DecodeBranch(t, op.value, instr, r);
    if !ok { return; }
    var ctrOk, condOk := false, false;
    if b.conditional {
      BoRange(instr);
      ctrOk, condOk := TestBranch(b.bo, b.bi, r.ctr, r.cr);
    }
    var step, next;
    SumWord(Isa.Displacement(instr), pc);
    if b.branch && (!b.conditional || (ctrOk && condOk)) {
      step := if b.aa != 0 then b.addr else (b.addr + pc) % WORD;
      next := if b.lk != 0 then (pc + 4) % WORD else step;
    } else {
      step := (pc + 4) % WORD;
      next := step;
    }
    nextaddr := if over then next else step;
  }

  lemma BoRange(i: nat)
    ensures Isa.BO(i) < 32 && Isa.BI(i) < 32
  {
  }

  lemma SumWord(d: int, pc: nat)
    ensures (d % WORD + pc) % WORD == (pc + d) % WORD
  {
  }

  lemma SignedIs(v: nat, half: nat)
    requires half > 0 && v < 2 * half
    ensures SignedField(v, half) == 4 * Isa.Exts(v, half)
  {
    if v >= half { UniqueMod(v, 1, v - half, half); } else { UniqueMod(v, 0, v, half); }
  }

  /** The sign of a field, and the two zero bits behind it. */
  function SignedField(v: nat, half: nat): int
    requires half > 0
  {
    4 * (if v / half % 2 == 1 then v - 2 * half else v)
  }

  /** The three operands that the register branches need. */
  method ConditionFields(t: Table, o: Opcode, instr: nat) returns (found: bool, bo: nat, bi: nat, lk: nat)
    requires OkTable(t) && forall n :: n in o.fields ==> n > 0
    ensures found <==> Has(o, t.bo) && Has(o, t.bi) && Has(o, t.lk)
    ensures found ==>
              bo == Field(instr, Operand(5, 21)) && bi == Field(instr, Operand(5, 16))
              && lk == Field(instr, Operand(1, 0))
  {
    bo, bi, lk := 0, 0, 0;
    found, bo := GetOperandValue(t, o, instr, t.bo);
    if !found { return; }
    found, bi := GetOperandValue(t, o, instr, t.bi);
    if !found { return; }
    found, lk := GetOperandValue(t, o, instr, t.lk);
  }

  /** The fields of the table are those of the architecture. */
  lemma FieldsAre(i: nat)
    ensures Field(i, Operand(5, 21)) == Isa.BO(i)
    ensures Field(i, Operand(5, 16)) == Isa.BI(i)
    ensures Field(i, Operand(1, 1)) == i / 2 % 2
    ensures Field(i, Operand(1, 0)) == i % 2
    ensures Field(i, Operand(14, 2)) == i / 4 % 0x4000
    ensures Field(i, Operand(24, 2)) == i / 4 % 0x100_0000
  {
    hide Shr, Low, Pow2;
    Powers();
    FieldIs(i, 5, 21);
    FieldIs(i, 5, 16);
    FieldIs(i, 1, 1);
    FieldIs(i, 1, 0);
    FieldIs(i, 14, 2);
    FieldIs(i, 24, 2);
  }

  lemma Powers()
    ensures Pow2(0) == 1 && Pow2(1) == 2 && Pow2(2) == 4 && Pow2(5) == 32 && Pow2(6) == 64
    ensures Pow2(13) == 0x2000 && Pow2(14) == 0x4000 && Pow2(16) == 0x1_0000 && Pow2(21) == 0x20_0000
    ensures Pow2(23) == 0x80_0000 && Pow2(24) == 0x100_0000 && Pow2(26) == 0x400_0000
  {
    assert Pow2(8) == 0x100 && Pow2(5) == 32 && Pow2(13) == 0x2000;
    PowAdd(8, 8);
    PowAdd(13, 8);
    PowAdd(13, 13);
    assert Pow2(22) == 2 * Pow2(21) && Pow2(23) == 2 * Pow2(22) && Pow2(24) == 2 * Pow2(23);
  }

  lemma FieldIs(i: nat, b: nat, s: nat)
    ensures Field(i, Operand(b, s)) == i / Pow2(s) % Pow2(b)
  {
    ShrIs(i, s);
    LowIs(Shr(i, s), b);
  }

  /** The opcode decides which case of the switch is taken. */
  lemma OpcodeKinds(t: Table, op: Opcode, i: nat)
    requires Describes(t, op, i)
    ensures op.opcode in {BOpcode(16, 0, 0), BOpcode(16, 0, 1), BOpcode(16, 1, 0), BOpcode(16, 1, 1)} <==>
            Isa.KindOf(i) == Isa.Bc
    ensures op.opcode in {BOpcode(18, 0, 0), BOpcode(18, 0, 1), BOpcode(18, 1, 0), BOpcode(18, 1, 1)} <==>
            Isa.KindOf(i) == Isa.B
    ensures op.opcode in {XLOpcode(19, 528, 0), XLOpcode(19, 528, 1)} <==> Isa.KindOf(i) == Isa.Bcctr
    ensures op.opcode in {XLOpcode(19, 16, 0), XLOpcode(19, 16, 1)} <==> Isa.KindOf(i) == Isa.Bclr
  {
  }

  lemma BitIs(cr: nat, bi: nat)
    requires bi < 32
    ensures (Shr(cr, 31 - bi) % 2 == 1) == Isa.CRBit(cr, bi)
  {
    ShrIs(cr, 31 - bi);
  }

  // ---- assembler, disassembler and stepper together ----

  const BD: Operand := Operand(14, 2)
  const LI: Operand := Operand(24, 2)

  /** Where a target is counted from: memaddr for a relative opcode, 0 for an absolute one. */
  function Base(aa: nat, r: Isa.Regs): nat { if aa == 1 then 0 else Isa.Cia(r) }

  /** What the assembler makes of bc, bcl, bca and bcla. */
  function AssembledBc(aa: nat, lk: nat, bo: nat, bi: nat, target: nat, base: nat): nat {
    Assemble(BOpcode(16, aa, lk),
             [Arg(Operand(5, 21), bo), Arg(Operand(5, 16), bi), Arg(BD, EncodeData(target, base, BD))])
  }

  /** What the assembler makes of b, bl, ba and bla. */
  function AssembledB(aa: nat, lk: nat, target: nat, base: nat): nat {
    Assemble(BOpcode(18, aa, lk), [Arg(LI, EncodeData(target, base, LI))])
  }

  lemma FieldKept(opcode: nat, args: seq<Arg>, k: nat)
    requires AllDisjoint(args) && k < |args|
    requires forall i :: 0 <= i < |args| ==> Field(opcode, args[i].o) == 0
    ensures Field(Assemble(opcode, args), args[k].o) == Field(Place(args[k].data, args[k].o), args[k].o)
  {
    hide Field, Place;
    EveryFieldKept(opcode, args, k);
    FieldOfPlace(args[k].data, args[k].o);
  }

  /** A conditional branch, relative or absolute, keeps the operands it was assembled from, and
      disassembler and architecture read the same target from it: the one it was assembled for
      if and only if that is in reach. */
  lemma BcAssembled(aa: nat, lk: nat, bo: nat, bi: nat, target: nat, r: Isa.Regs)
    requires aa < 2 && lk < 2 && bo < 32 && bi < 32 && target < WORD && Isa.OkRegs(r)
    ensures var i := AssembledBc(aa, lk, bo, bi, target, Base(aa, r));
            && Isa.KindOf(i) == Isa.Bc && (Isa.AA(i) <==> aa == 1) && (Isa.LK(i) <==> lk == 1)
            && Isa.BO(i) == bo && Isa.BI(i) == bi
            && DecodeTarget(i, Base(aa, r), BD) == Isa.Target(i, r)
            && (Isa.Target(i, r) == target <==> Reaches(target, Base(aa, r), BD))
  {
    hide Field, Place, Assemble, Reaches, EncodeData, DecodeTarget, BOpcode, Pow2, Low, Isa.Exts;
    var base, opcode := Base(aa, r), BOpcode(16, aa, lk);
    var args := [Arg(Operand(5, 21), bo), Arg(Operand(5, 16), bi), Arg(BD, EncodeData(target, base, BD))];
    var i := Assemble(opcode, args);
    OpcodeFields(16, aa, lk);
    FieldsAre(i);
    TopBits(i);
    EveryFieldKept(opcode, args, 0);
    EveryFieldKept(opcode, args, 1);
    LowFive(bo);
    LowFive(bi);
    FieldKept(opcode, args, 2);
    OutsideKept(opcode, args, Operand(6, 26));
    OutsideKept(opcode, args, Operand(1, 1));
    OutsideKept(opcode, args, Operand(1, 0));
    SameField(i, Place(args[2].data, BD), base, BD);
    TargetBack(target, base, BD);
    BdTarget(i, base);
  }

  lemma BAssembled(aa: nat, lk: nat, target: nat, r: Isa.Regs)
    requires aa < 2 && lk < 2 && target < WORD && Isa.OkRegs(r)
    ensures var i := AssembledB(aa, lk, target, Base(aa, r));
            && Isa.KindOf(i) == Isa.B && (Isa.AA(i) <==> aa == 1) && (Isa.LK(i) <==> lk == 1)
            && DecodeTarget(i, Base(aa, r), LI) == Isa.Target(i, r)
            && (Isa.Target(i, r) == target <==> Reaches(target, Base(aa, r), LI))
  {
    hide Field, Place, Assemble, Reaches, EncodeData, DecodeTarget, BOpcode, Pow2, Low, Isa.Exts;
    var base, opcode := Base(aa, r), BOpcode(18, aa, lk);
    var args := [Arg(LI, EncodeData(target, base, LI))];
    var i := Assemble(opcode, args);
    OpcodeFields(18, aa, lk);
    FieldsAre(i);
    TopBits(i);
    FieldKept(opcode, args, 0);
    OutsideKept(opcode, args, Operand(6, 26));
    OutsideKept(opcode, args, Operand(1, 1));
    OutsideKept(opcode, args, Operand(1, 0));
    SameField(i, Place(args[0].data, LI), base, LI);
    TargetBack(target, base, LI);
    LiTarget(i, base);
  }

  /** The stepper goes where a conditional branch was assembled to go, when it is taken and its
      encoding listed; stepping over a call, and every branch that is not taken, goes to the
      following instruction. */
  lemma BcGoesToTarget(aa: nat, lk: nat, bo: nat, bi: nat, target: nat, r: Isa.Regs)
    requires aa < 2 && lk < 2 && bo < 32 && bi < 32 && target < WORD && Isa.OkRegs(r)
    requires Reaches(target, Base(aa, r), BD)
    ensures var i := AssembledBc(aa, lk, bo, bi, target, Base(aa, r));
            && DecodeTarget(i, Base(aa, r), BD) == target
            && (Isa.Taken(i, r) && Listed(bo) ==> CodeNext(i, r, false) == target)
            && (Isa.Taken(i, r) && Listed(bo) ==>
                  CodeNext(i, r, true) == if lk == 1 then Isa.Sequential(r) else target)
            && (!Isa.Taken(i, r) ==> CodeNext(i, r, false) == CodeNext(i, r, true) == Isa.Sequential(r))
  {
    hide AssembledBc, Reaches, DecodeTarget, Isa.Target, Isa.Taken, Isa.KindOf, Isa.BO, Isa.BI, Isa.Sequential, Listed,
      Steps;
    BcAssembled(aa, lk, bo, bi, target, r);
    StepsIsTaken(AssembledBc(aa, lk, bo, bi, target, Base(aa, r)), r);
  }

  /** The same for an unconditional branch, which is always taken. */
  lemma BGoesToTarget(aa: nat, lk: nat, target: nat, r: Isa.Regs)
    requires aa < 2 && lk < 2 && target < WORD && Isa.OkRegs(r) && Reaches(target, Base(aa, r), LI)
    ensures var i := AssembledB(aa, lk, target, Base(aa, r));
            && DecodeTarget(i, Base(aa, r), LI) == target
            && CodeNext(i, r, false) == target
            && CodeNext(i, r, true) == if lk == 1 then Isa.Sequential(r) else target
  {
    hide AssembledB, Reaches, DecodeTarget, Isa.Target, Isa.KindOf, Isa.Sequential;
    BAssembled(aa, lk, target, r);
  }

  lemma HighGaps(p: nat, aa: nat, lk: nat)
    requires p < 64 && aa < 2 && lk < 2
    ensures var i := p * 0x400_0000 + 2 * aa + lk;
            i / 0x20_0000 % 32 == 0 && i / 0x1_0000 % 32 == 0 && i / 0x400_0000 % 64 == p
  {
    var i, low := p * 0x400_0000 + 2 * aa + lk, 2 * aa + lk;
    UniqueMod(i, p * 32, low, 0x20_0000);
    UniqueMod(i, p * 0x400, low, 0x1_0000);
    UniqueMod(i, p, low, 0x400_0000);
  }

  lemma WideGaps(p: nat, aa: nat, lk: nat)
    requires p < 64 && aa < 2 && lk < 2
    ensures var i := p * 0x400_0000 + 2 * aa + lk; i / 4 % 0x4000 == 0 && i / 4 % 0x100_0000 == 0
  {
    UniqueMod(p * 0x400_0000 + 2 * aa + lk, p * 0x100_0000, 2 * aa + lk, 4);
    UniqueMod(p * 0x100_0000, p * 0x400, 0, 0x4000);
    UniqueMod(p * 0x100_0000, p, 0, 0x100_0000);
  }

  lemma LastBits(p: nat, aa: nat, lk: nat)
    requires p < 64 && aa < 2 && lk < 2
    ensures var i := p * 0x400_0000 + 2 * aa + lk; i / 2 % 2 == aa && i % 2 == lk
  {
    UniqueMod(p * 0x400_0000 + 2 * aa + lk, p * 0x200_0000 + aa, lk, 2);
    UniqueMod(p * 0x200_0000 + aa, p * 0x100_0000, aa, 2);
  }

  /** An opcode has nothing where the operands go. */
  lemma OpcodeFields(primary: nat, aa: nat, lk: nat)
    requires primary < 64 && aa < 2 && lk < 2
    ensures var i := BOpcode(primary, aa, lk);
            && Field(i, Operand(6, 26)) == primary && Field(i, Operand(1, 1)) == aa && Field(i, Operand(1, 0)) == lk
            && Field(i, Operand(5, 21)) == 0 && Field(i, Operand(5, 16)) == 0 && Field(i, BD) == 0 && Field(i, LI) == 0
  {
    hide Field;
    var i := BOpcode(primary, aa, lk);
    HighGaps(primary, aa, lk);
    WideGaps(primary, aa, lk);
    LastBits(primary, aa, lk);
    FieldsAre(i);
    TopBits(i);
  }

  lemma LowFive(v: nat)
    requires v < 32
    ensures Low(v, 5) == v
  {
    hide Pow2, Low;
    Powers();
    LowIs(v, 5);
  }

  lemma TopBits(i: nat)
    ensures Field(i, Operand(6, 26)) == i / 0x400_0000 % 64
  {
    hide Pow2, Field;
    Powers();
    FieldIs(i, 6, 26);
  }

  lemma SameField(i: nat, j: nat, base: nat, o: Operand)
    requires o.bits > 0 && Field(i, o) == Field(j, o)
    ensures DecodeTarget(i, base, o) == DecodeTarget(j, base, o)
  {
  }

  lemma BdTarget(i: nat, pc: nat)
    ensures DecodeTarget(i, pc, BD) == (pc + 4 * Isa.Exts(i / 4 % 0x4000, 0x2000)) % WORD
  {
    hide Shr, Pow2, Field, DecodeTarget;
    Powers();
    FieldsAre(i);
    var x := i / 4 % 0x4000;
    ShrIs(x, 13);
    DecodeIs(i, pc, BD, x, Isa.Exts(x, 0x2000));
  }

  lemma LiTarget(i: nat, pc: nat)
    ensures DecodeTarget(i, pc, LI) == (pc + 4 * Isa.Exts(i / 4 % 0x100_0000, 0x80_0000)) % WORD
  {
    hide Shr, Pow2, Field, DecodeTarget;
    Powers();
    FieldsAre(i);
    var x := i / 4 % 0x100_0000;
    ShrIs(x, 23);
    DecodeIs(i, pc, LI, x, Isa.Exts(x, 0x80_0000));
  }
}

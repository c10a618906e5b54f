/** Operand fields of a 32-bit instruction: what the assembler writes into them, what the
    disassembler and the stepper read from them. Words are numbers below 2^32. */
module BedbugFields {
  import opened Numbers

  const WORD: nat := 0x1_0000_0000

  function Pow2(k: nat): (r: nat)
    ensures r > 0
  {
    if k == 0 then 1 else 2 * Pow2(k - 1)
  }

  /** `x >> k` */
  function Shr(x: nat, k: nat): nat { if k == 0 then x else Shr(x / 2, k - 1) }

  /** `x << k` */
  function Shl(x: nat, k: nat): nat { if k == 0 then x else 2 * Shl(x, k - 1) }

  /** `x & ((1 << b) - 1)` */
  function Low(x: nat, b: nat): nat { if b == 0 then 0 else x % 2 + 2 * Low(x / 2, b - 1) }

  /** `x | y` */
  function Or(x: nat, y: nat): nat
    decreases x + y
  {
    if x == 0 then y else if y == 0 then x
    else 2 * Or(x / 2, y / 2) + (if x % 2 == 0 && y % 2 == 0 then 0 else 1)
  }

  /** struct operand: how wide a field is and where it stands. */
  datatype Operand = Operand(bits: nat, shift: nat)

  /** get_operand_value for a field that the instruction has. */
  function Field(instr: nat, o: Operand): nat { Low(Shr(instr, o.shift), o.bits) }

  /** `(data & mask) << shift`, the last line of parse_operand. */
  function Place(data: nat, o: Operand): nat { Shl(Low(data, o.bits), o.shift) }

  predicate Disjoint(a: Operand, b: Operand) {
    a.shift + a.bits <= b.shift || b.shift + b.bits <= a.shift
  }

  // ---- bits ----

  lemma OrHalf(x: nat, y: nat)
    ensures Or(x, y) / 2 == Or(x / 2, y / 2)
    ensures Or(x, y) % 2 == if x % 2 == 0 && y % 2 == 0 then 0 else 1
  {
    if x == 0 || y == 0 {
      assert Or(0, y / 2) == y / 2 && Or(x / 2, 0) == x / 2;
    }
  }

  lemma {:induction false} ShrOr(x: nat, y: nat, k: nat)
    ensures Shr(Or(x, y), k) == Or(Shr(x, k), Shr(y, k))
    decreases k
  {
    if k > 0 {
      OrHalf(x, y);
      ShrOr(x / 2, y / 2, k - 1);
    }
  }

  lemma {:induction false} LowOr(x: nat, y: nat, b: nat)
    ensures Low(Or(x, y), b) == Or(Low(x, b), Low(y, b))
    decreases b
  {
    hide Or, Low;
    LowHalf(x, b);
    LowHalf(y, b);
    LowHalf(Or(x, y), b);
    if b == 0 {
      OrZero(0);
    } else {
      OrHalf(x, y);
      LowOr(x / 2, y / 2, b - 1);
      OrHalf(Low(x, b), Low(y, b));
    }
  }

  lemma LowHalf(x: nat, b: nat)
    ensures b == 0 ==> Low(x, b) == 0
    ensures b > 0 ==> Low(x, b) / 2 == Low(x / 2, b - 1) && Low(x, b) % 2 == x % 2
  {
  }

  lemma {:induction false} ShrShl(x: nat, k: nat, j: nat)
    ensures k >= j ==> Shr(Shl(x, k), j) == Shl(x, k - j)
    ensures k <= j ==> Shr(Shl(x, k), j) == Shr(x, j - k)
    decreases j
  {
    if j > 0 && k > 0 { ShrShl(x, k - 1, j - 1); }
  }

  lemma {:induction false} LowLow(x: nat, b: nat)
    ensures Low(Low(x, b), b) == Low(x, b)
    decreases b
  {
    if b > 0 { LowLow(x / 2, b - 1); }
  }

  lemma {:induction false} ShrLow(x: nat, b: nat, k: nat)
    requires k >= b
    ensures Shr(Low(x, b), k) == 0
    decreases k
  {
    if b > 0 { ShrLow(x / 2, b - 1, k - 1); } else { ShrNothing(k); }
  }

  lemma {:induction false} ShrNothing(k: nat)
    ensures Shr(0, k) == 0
  {
    if k > 0 { ShrNothing(k - 1); }
  }

  lemma {:induction false} LowShl(x: nat, k: nat, b: nat)
    requires k >= b
    ensures Low(Shl(x, k), b) == 0
    decreases b
  {
    if b > 0 { LowShl(x, k - 1, b - 1); }
  }

  /** A field holds what was placed there. */
  lemma FieldOfPlace(data: nat, o: Operand)
    ensures Field(Place(data, o), o) == Low(data, o.bits)
  {
    ShrShl(Low(data, o.bits), o.shift, o.shift);
    LowLow(data, o.bits);
  }

  /** And nothing of what was placed elsewhere. */
  lemma FieldOfOther(data: nat, a: Operand, b: Operand)
    requires Disjoint(a, b)
    ensures Field(Place(data, a), b) == 0
  {
    var v := Low(data, a.bits);
    ShrShl(v, a.shift, b.shift);
    if a.shift + a.bits <= b.shift {
      ShrLow(data, a.bits, b.shift - a.shift);
      LowZero(b.bits);
    } else {
      if a.shift >= b.shift { LowShl(v, a.shift - b.shift, b.bits); }
    }
  }

  lemma {:induction false} LowZero(b: nat)
    ensures Low(0, b) == 0
  {
    if b > 0 { LowZero(b - 1); }
  }

  lemma FieldOfOr(x: nat, y: nat, o: Operand)
    ensures Field(Or(x, y), o) == Or(Field(x, o), Field(y, o))
  {
    ShrOr(x, y, o.shift);
    LowOr(Shr(x, o.shift), Shr(y, o.shift), o.bits);
  }

  // ---- assembling ----

  datatype Arg = Arg(o: Operand, data: nat)

  /** asmppc: `instr |= param` for one operand after the other. */
  function Assemble(opcode: nat, args: seq<Arg>): nat {
    if args == [] then opcode
    else Or(Assemble(opcode, args[..|args| - 1]), Place(args[|args| - 1].data, args[|args| - 1].o))
  }

  predicate AllDisjoint(args: seq<Arg>) {
    forall i, j :: 0 <= i < j < |args| ==> Disjoint(args[i].o, args[j].o)
  }

  /** A field outside all operands keeps what the opcode has there. */
  lemma {:induction false} OutsideKept(opcode: nat, args: seq<Arg>, f: Operand)
    requires forall i :: 0 <= i < |args| ==> Disjoint(args[i].o, f)
    ensures Field(Assemble(opcode, args), f) == Field(opcode, f)
  {
    hide Field, Place, Or;
    if args != [] {
      var rest, last := args[..|args| - 1], args[|args| - 1];
      OutsideKept(opcode, rest, f);
      FieldOfOr(Assemble(opcode, rest), Place(last.data, last.o), f);
      FieldOfOther(last.data, last.o, f);
      OrZero(Field(opcode, f));
    }
  }

  lemma OrZero(x: nat)
    ensures Or(x, 0) == x && Or(0, x) == x
  {
  }

  /** Operands of disjoint fields do not disturb each other: each is read back as it was given. */
  lemma {:induction false} EveryFieldKept(opcode: nat, args: seq<Arg>, k: nat)
    requires AllDisjoint(args) && k < |args|
    requires forall i :: 0 <= i < |args| ==> Field(opcode, args[i].o) == 0
    ensures Field(Assemble(opcode, args), args[k].o) == Low(args[k].data, args[k].o.bits)
  {
    hide Field, Place, Or, Disjoint;
    var rest, last := args[..|args| - 1], args[|args| - 1];
    var f := args[k].o;
    FieldOfOr(Assemble(opcode, rest), Place(last.data, last.o), f);
    if k < |rest| {
      assert rest[k] == args[k];
      EveryFieldKept(opcode, rest, k);
      DisjointBack(f, last.o);
      FieldOfOther(last.data, last.o, f);
      OrZero(Low(args[k].data, f.bits));
    } else {
      forall i | 0 <= i < |rest| ensures Disjoint(rest[i].o, f) { assert rest[i] == args[i]; }
      OutsideKept(opcode, rest, f);
      FieldOfPlace(last.data, last.o);
      OrZero(Low(last.data, f.bits));
    }
  }

  /** The loop of asmppc over operands that have been parsed. */
  method AssembleOperands(opcode: nat, args: seq<Arg>) returns (instr: nat)
    ensures instr == Assemble(opcode, args)
    ensures AllDisjoint(args) && (forall i :: 0 <= i < |args| ==> Field(opcode, args[i].o) == 0) ==>
              forall k :: 0 <= k < |args| ==> Field(instr, args[k].o) == Low(args[k].data, args[k].o.bits)
  {
    hide Field, Place, Or, Disjoint;
    instr := opcode;
    var n := 0;
    while n < |args|
      invariant n <= |args| && instr == Assemble(opcode, args[..n])
    {
      assert args[..n + 1][..n] == args[..n];
      instr := Or(instr, Place(args[n].data, args[n].o));
      n := n + 1;
    }
    assert args[..n] == args;
    if AllDisjoint(args) && forall i :: 0 <= i < |args| ==> Field(opcode, args[i].o) == 0 {
      forall k | 0 <= k < |args| ensures Field(instr, args[k].o) == Low(args[k].data, args[k].o.bits) {
        EveryFieldKept(opcode, args, k);
      }
    }
  }

  lemma DisjointBack(a: Operand, b: Operand)
    ensures Disjoint(a, b) == Disjoint(b, a)
  {
  }

  // ---- split fields ----

  /** spr_name, spr_value: the two five-bit halves are exchanged. */
  function Swap(v: nat): nat { Or(Low(Shr(v, 5), 5), Shl(Low(v, 5), 5)) }

  lemma Pow5()
    ensures Pow2(5) == 32
  {
  }

  lemma SwapIs(v: nat)
    ensures Swap(v) == v / 32 % 32 + 32 * (v % 32)
  {
    hide Or, Low, Shr, Shl, Pow2;
    Pow5();
    LowIs(v, 5);
    ShrIs(v, 5);
    LowIs(v / 32, 5);
    ShlIs(v % 32, 5);
    OrApart(v / 32 % 32, v % 32, 5);
  }

  lemma Twice(q: nat, m: nat)
    ensures 2 * (q * m) == q * (2 * m)
  {
  }

  lemma OneBit(x: nat, m: nat)
    requires m > 0
    ensures x / (2 * m) == x / 2 / m
    ensures x % (2 * m) == x % 2 + 2 * (x / 2 % m)
  {
    var q, r := x / 2 / m, x / 2 % m;
    Twice(q, m);
    UniqueMod(x, q, x % 2 + 2 * r, 2 * m);
  }

  /** The low bits are the remainder, and shifting is dividing and multiplying. */
  lemma {:induction false} LowIs(x: nat, b: nat)
    ensures Low(x, b) == x % Pow2(b)
    decreases b
  {
    if b > 0 {
      LowIs(x / 2, b - 1);
      OneBit(x, Pow2(b - 1));
    }
  }

  lemma {:induction false} ShrIs(x: nat, k: nat)
    ensures Shr(x, k) == x / Pow2(k)
    decreases k
  {
    if k > 0 {
      ShrIs(x / 2, k - 1);
      OneBit(x, Pow2(k - 1));
    }
  }

  lemma {:induction false} ShlIs(x: nat, k: nat)
    ensures Shl(x, k) == x * Pow2(k)
    decreases k
  {
    if k > 0 {
      ShlIs(x, k - 1);
      Twice(x, Pow2(k - 1));
    }
  }

  lemma Halves(z: nat, h: nat, a: nat)
    requires z / 2 == h && z % 2 == a % 2
    ensures z == 2 * h + a % 2
  {
  }

  lemma {:induction false} OrApart(a: nat, b: nat, k: nat)
    requires a < Pow2(k)
    ensures Or(a, Pow2(k) * b) == a + Pow2(k) * b
    decreases k
  {
    hide Or;
    if k == 0 {
      OrZero(b);
    } else {
      var p := Pow2(k - 1);
      var y := p * b;
      assert Pow2(k) * b == 2 * y;
      OrApart(a / 2, b, k - 1);
      OrHalf(a, 2 * y);
      Halves(Or(a, 2 * y), a / 2 + y, a);
    }
  }

  /** Exchanging the halves twice gives the ten bits back. */
  lemma SwapBack(v: nat)
    ensures Swap(Swap(v)) == v % 1024
    ensures Swap(v) == 0 <==> v % 1024 == 0
  {
    hide Swap;
    SwapIs(v);
    var h, l := v / 32 % 32, v % 32;
    SwapIs(h + 32 * l);
    UniqueMod(h + 32 * l, l, h, 32);
    UniqueMod(v, v / 1024, 32 * h + l, 1024);
  }
}

/** Branch targets: the assembler's encoding and the disassembler's reading of it. */
module BedbugTargets {
  import opened BedbugFields
  import opened Numbers

  /** A 32-bit `long` with the bits of x. */
  function Signed(x: int): int { if x % WORD >= WORD / 2 then x % WORD - WORD else x % WORD }

  /** parse_operand for an address; `base` is memaddr for a relative opcode and 0 otherwise. */
  function EncodeData(target: nat, base: nat, o: Operand): nat
    requires o.bits > 0
  {
    var data := Signed(target - base);
    var cut := Low(data / 4 % WORD, o.bits - 1);
    if data < 0 then Or(cut, Pow2(o.bits - 1)) else cut
  }

  function EncodeTarget(target: nat, base: nat, o: Operand): nat
    requires o.bits > 0
  {
    Place(EncodeData(target, base, o), o)
  }

  /** print_operands for an address. */
  function DecodeTarget(instr: nat, base: nat, o: Operand): nat
    requires o.bits > 0
  {
    var x := Field(instr, o);
    var s: int := if Shr(x, o.bits - 1) % 2 == 1 then x - Pow2(o.bits) else x;
    (4 * s + base) % WORD
  }

  /** A whole number of words away, and near enough for the field with its sign. */
  predicate Reaches(target: nat, base: nat, o: Operand) {
    var d := Signed(target - base);
    d % 4 == 0 && -2 * Pow2(o.bits) <= d < 2 * Pow2(o.bits)
  }

  lemma {:induction false} PowAdd(j: nat, k: nat)
    ensures Pow2(j + k) == Pow2(j) * Pow2(k)
    decreases j
  {
    if j > 0 {
      PowAdd(j - 1, k);
      Product(Pow2(j - 1), Pow2(k));
    }
  }

  lemma Product(a: nat, b: nat)
    ensures 2 * (a * b) == 2 * a * b
  {
  }

  lemma {:induction false} PowGrows(j: nat, k: nat)
    requires j <= k
    ensures Pow2(j) <= Pow2(k)
    decreases k
  {
    if j < k { PowGrows(j, k - 1); }
  }

  /** Reducing modulo a multiple first does not matter. */
  lemma ModMod(q: int, p: nat, k: nat)
    requires p > 0 && k > 0
    ensures p * k > 0 && q % (p * k) % p == q % p
  {
    ScaledBounds(k, p);
    var m := p * k;
    var a, r := q / m, q % m;
    assert q == a * m + r;
    Reorder(a, p, k);
    ModShift(r, p, a * k);
  }

  lemma Reorder(a: int, p: nat, k: nat)
    ensures a * (p * k) == a * k * p
  {
  }

  /** q modulo p is q itself, or q + p, exactly when q is near enough to 0. */
  lemma NearZero(q: int, p: int)
    requires p > 0
    ensures q >= 0 ==> (q % p == q <==> q < p)
    ensures q < 0 ==> (q % p - p == q <==> -p <= q)
  {
    if 0 <= q < p { ModSmall(q, p); }
    if -p <= q < 0 {
      ModShift(q, p, 1);
      ModSmall(q + p, p);
    }
  }

  lemma ModSmall(q: nat, p: nat)
    requires q < p
    ensures q % p == q
  {
  }

  /** The number that is read back from the field, as a signed word distance. */
  lemma FieldValue(data: int, o: Operand) returns (cut: nat)
    requires 1 < o.bits <= 30 && -0x8000_0000 <= data < 0x8000_0000
    ensures cut == Low(data / 4 % WORD, o.bits - 1)
    ensures cut < Pow2(o.bits - 1) && cut == (data / 4) % Pow2(o.bits - 1)
    ensures var x := if data < 0 then Or(cut, Pow2(o.bits - 1)) else cut;
            && x == (if data < 0 then cut + Pow2(o.bits - 1) else cut)
            && Field(Place(x, o), o) == x
            && Shr(x, o.bits - 1) == (if data < 0 then 1 else 0)
  {
    hide Field, Place, Or, Low, Shr;
    var k := o.bits - 1;
    var p := Pow2(k);
    LowIs(data / 4 % WORD, k);
    cut := Low(data / 4 % WORD, k);
    WordIs(k);
    ModMod(data / 4, p, Pow2(32 - k));
    ModLess(data / 4 % WORD, p);
    var x := if data < 0 then Or(cut, p) else cut;
    OrApart(cut, 1, k);
    FieldOfPlace(x, o);
    LowIs(x, o.bits);
    ModSmall(x, 2 * p);
    ShrIs(x, k);
    if data < 0 { UniqueMod(x, 1, cut, p); } else { UniqueMod(x, 0, cut, p); }
  }

  lemma WordPow()
    ensures Pow2(32) == WORD && Pow2(29) == 0x2000_0000
  {
    assert Pow2(16) == 0x1_0000 && Pow2(13) == 0x2000;
    PowAdd(16, 16);
    PowAdd(13, 16);
  }

  lemma PowNext(k: nat)
    requires k > 0
    ensures Pow2(k) == 2 * Pow2(k - 1)
  {
  }

  lemma DecodeIs(instr: nat, base: nat, o: Operand, x: nat, s: int)
    requires o.bits > 0 && x == Field(instr, o)
    requires s == if Shr(x, o.bits - 1) % 2 == 1 then x - Pow2(o.bits) else x
    ensures DecodeTarget(instr, base, o) == (4 * s + base) % WORD
  {
  }

  lemma WordIs(k: nat)
    requires k <= 32
    ensures Pow2(k) * Pow2(32 - k) == WORD
  {
    PowAdd(k, 32 - k);
    WordPow();
  }

  lemma ModLess(x: nat, p: nat)
    requires p > 0
    ensures 0 <= x % p < p
  {
  }

  /** What is assembled for a target disassembles to the target, exactly when the target can
      be reached. */
  lemma TargetBack(target: nat, base: nat, o: Operand)
    requires target < WORD && base < WORD && 1 < o.bits <= 30
    ensures DecodeTarget(EncodeTarget(target, base, o), base, o) == target <==> Reaches(target, base, o)
  {
    var d := Signed(target - base);
    SignedRange(target - base);
    var p: int := Pow2(o.bits - 1);
    var cut := FieldValue(d, o);
    hide Field, Place, Or, Low, Shr, Signed, Pow2, DecodeTarget;
    PowGrows(o.bits - 1, 29);
    WordPow();
    PowNext(o.bits);
    var s: int := if d < 0 then cut - p else cut;
    var x := if d < 0 then Or(cut, Pow2(o.bits - 1)) else cut;
    DecodeIs(EncodeTarget(target, base, o), base, o, x, s);
    SameWord(target, base, s);
    WordDistance(d, p, cut, s);
  }

  lemma WordDistance(d: int, p: int, cut: int, s: int)
    requires p > 0 && cut == d / 4 % p && s == if d < 0 then cut - p else cut
    ensures 4 * s == d <==> d % 4 == 0 && -4 * p <= d < 4 * p
  {
    NearZero(d / 4, p);
  }

  lemma SignedRange(x: int)
    ensures -0x8000_0000 <= Signed(x) < 0x8000_0000
  {
  }

  lemma SameWord(target: nat, base: nat, s: int)
    requires target < WORD && base < WORD && -0x2000_0000 <= s < 0x2000_0000
    ensures (4 * s + base) % WORD == target <==> Signed(target - base) == 4 * s
  {
  }
}

/** part_validate: bounds in 32-bit arithmetic and erase-block alignment, with
    block alignment also defined independently of how the code checks it. */
module MtdBlocks {
  import opened MtdTypes
  import opened Options
  import opened Numbers

  // ---- the block grid of a device ----

  /** The first addresses of n blocks laid end to end. */
  function Run(start: int, eraseSize: int, n: nat): seq<int> {
    if n == 0 then [] else Run(start, eraseSize, n - 1) + [start + (n - 1) * eraseSize]
  }

  function Starts(rs: seq<Region>): seq<int> {
    if rs == [] then []
    else Starts(rs[..|rs| - 1]) + Run(rs[|rs| - 1].offset, rs[|rs| - 1].eraseSize, rs[|rs| - 1].numBlocks)
  }

  function End(r: Region): int { r.offset + r.numBlocks * r.eraseSize }

  /** Every region begins where the one before it ends, the first one at 0. */
  predicate EndToEnd(rs: seq<Region>) {
    && rs != []
    && rs[0].offset == 0
    && (forall i :: 0 <= i < |rs| ==> rs[i].eraseSize > 0 && rs[i].numBlocks > 0 && End(rs[i]) < WORD)
    && (forall i :: 0 < i < |rs| ==> rs[i].offset == End(rs[i - 1]))
  }

  predicate Sane(g: Geometry) {
    match g
    case Absent => true
    case Uniform(e) => e > 0
    case Regions(rs) => EndToEnd(rs)
  }

  /** [lo, hi) is one erase block. */
  ghost predicate IsBlock(g: Geometry, lo: int, hi: int) {
    match g
    case Absent => false
    case Uniform(e) => e > 0 && 0 <= lo && lo % e == 0 && hi == lo + e
    case Regions(rs) =>
      rs != [] && exists k :: 0 <= k < |Starts(rs)| && lo == Grid(rs)[k] && hi == Grid(rs)[k + 1]
  }

  /** All block boundaries in order, the end of the device included. */
  function Grid(rs: seq<Region>): (g: seq<int>)
    requires rs != []
    ensures |g| == |Starts(rs)| + 1
  {
    Starts(rs) + [End(rs[|rs| - 1])]
  }

  /** [a, b) is a union of whole erase blocks: every address in it lies in a
      block that does not stick out. */
  ghost predicate WholeBlocks(g: Geometry, a: int, b: int) {
    forall x :: a <= x < b ==> InWholeBlock(g, a, b, x)
  }

  ghost predicate InWholeBlock(g: Geometry, a: int, b: int, x: int) {
    exists lo, hi :: IsBlock(g, lo, hi) && a <= lo <= x < hi <= b
  }

  // ---- the grid is strictly ascending and every block is where its region says ----

  lemma {:induction false} RunShape(start: int, e: int, n: nat)
    requires e > 0
    ensures |Run(start, e, n)| == n
    ensures forall i :: 0 <= i < n ==> Run(start, e, n)[i] == start + i * e
  {
    if n > 0 {
      RunShape(start, e, n - 1);
    }
  }

  lemma {:induction false} RunAscends(start: int, e: int, n: nat)
    requires e > 0 && n > 0
    ensures |Run(start, e, n)| == n
    ensures Run(start, e, n)[0] == start
    ensures forall i :: 0 <= i < n ==> start <= Run(start, e, n)[i] <= start + (n - 1) * e
    ensures forall i, j :: 0 <= i < j < n ==> Run(start, e, n)[i] < Run(start, e, n)[j]
  {
    if n == 1 {
      assert Run(start, e, 0) == [];
    } else {
      RunAscends(start, e, n - 1);
      assert (n - 2) * e + e == (n - 1) * e;
    }
  }

  predicate Ascending(s: seq<int>) { forall i, j :: 0 <= i < j < |s| ==> s[i] < s[j] }

  /** Two ascending pieces of grid that meet in one boundary. */
  lemma JoinAscending(front: seq<int>, run: seq<int>, end: int)
    requires run != [] && Ascending(front + [run[0]]) && Ascending(run + [end])
    ensures Ascending(front + run + [end])
  {
    var s, f, r := front + run + [end], front + [run[0]], run + [end];
    forall i, j | 0 <= i < j < |s| ensures s[i] < s[j] {
      assert i < |front| ==> s[i] == f[i];
      assert j < |front| ==> s[j] == f[j];
      assert i >= |front| ==> s[i] == r[i - |front|];
      assert j >= |front| ==> s[j] == r[j - |front|];
      if i < |front| <= j {
        assert f[i] < f[|front|] == r[0];
        assert j > |front| ==> r[0] < r[j - |front|];
      }
    }
  }

  lemma {:induction false} GridAscends(rs: seq<Region>)
    requires EndToEnd(rs)
    ensures Starts(rs) != [] && Starts(rs)[0] == 0
    ensures Ascending(Grid(rs))
  {
    var last, front := rs[|rs| - 1], rs[..|rs| - 1];
    var run := Run(last.offset, last.eraseSize, last.numBlocks);
    RunAscends(last.offset, last.eraseSize, last.numBlocks);
    BelowEnd(last.numBlocks - 1, last.numBlocks, last.eraseSize);
    assert Ascending(run + [End(last)]);
    if |rs| > 1 {
      GridAscends(front);
      assert Grid(front) == Starts(front) + [run[0]];
    }
    JoinAscending(Starts(front), run, End(last));
  }

  // ---- alignment, as the code tests it ----

  /** The two tests of part_validate_eraseblock. */
  ghost predicate Aligned(g: Geometry, offset: int, end: int) {
    match g
    case Absent => false
    case Uniform(e) => e > 0 && offset % e == 0 && (end - offset) % e == 0
    case Regions(rs) => rs != [] && offset in Starts(rs) && end in Grid(rs)
  }

  lemma ModSum(a: int, b: int, e: int)
    requires e > 0 && a % e == 0
    ensures (a + b) % e == b % e
  {
    var q := a / e;
    assert a == q * e;
    var p := b / e;
    assert b == p * e + b % e;
    assert a + b == (q + p) * e + b % e;
    UniqueMod(a + b, q + p, b % e, e);
  }

  lemma UniformIff(e: u32, a: int, b: int)
    requires e > 0 && 0 <= a < b
    ensures Aligned(Uniform(e), a, b) <==> WholeBlocks(Uniform(e), a, b)
  {
    var g := Uniform(e);
    if Aligned(g, a, b) {
      forall x | a <= x < b ensures InWholeBlock(g, a, b, x) { UniformAround(e, a, b, x); }
    }
    if WholeBlocks(g, a, b) { UniformEnds(e, a, b); }
  }

  /** The block of an address inside an aligned range. */
  lemma UniformAround(e: u32, a: int, b: int, x: int)
    requires e > 0 && 0 <= a <= x < b && Aligned(Uniform(e), a, b)
    ensures InWholeBlock(Uniform(e), a, b, x)
  {
    var lo := x - x % e;
    assert lo == (x / e) * e;
    UniqueMod(lo, x / e, 0, e);
    ModSum(a, lo - a, e);
    ModSum(a, b - a, e);
    ModSum(lo, b - lo, e);
    Multiple(lo - a, -(x % e), e);
    Multiple(b - lo, x - lo, e);
    assert IsBlock(Uniform(e), lo, lo + e);
  }

  /** Blocks at both ends of a range that is made of whole ones. */
  lemma UniformEnds(e: u32, a: int, b: int)
    requires e > 0 && 0 <= a < b && WholeBlocks(Uniform(e), a, b)
    ensures Aligned(Uniform(e), a, b)
  {
    var g := Uniform(e);
    assert InWholeBlock(g, a, b, a) && InWholeBlock(g, a, b, b - 1);
    var lo, hi :| IsBlock(g, lo, hi) && a <= lo <= a < hi <= b;
    assert lo == a;
    var lo', hi' :| IsBlock(g, lo', hi') && a <= lo' <= b - 1 < hi' <= b;
    assert hi' == b;
    ModSum(lo', e, e);
    UniqueMod(e, 1, 0, e);
    ModSum(a, b - a, e);
  }

  /** A multiple of e that exceeds a number above -e is not negative; and one above 0 is at least e. */
  lemma Multiple(m: int, above: int, e: int)
    requires e > 0 && m % e == 0
    ensures m >= above > -e ==> m >= 0
    ensures m > above >= 0 ==> m >= e
  {
    assert m == (m / e) * e;
    ScaledBounds(m / e, e);
  }

  lemma {:induction false} BlockAround(s: seq<int>, x: int) returns (k: nat)
    requires |s| >= 2 && Ascending(s) && s[0] <= x < s[|s| - 1]
    ensures k + 1 < |s| && s[k] <= x < s[k + 1]
  {
    k := 0;
    while s[k + 1] <= x
      invariant k + 1 < |s| && s[k] <= x
      decreases |s| - k
    {
      k := k + 1;
    }
  }

  /** Between two boundaries every address has its block. */
  lemma AlignedIsWhole(rs: seq<Region>, a: int, b: int, x: int)
    requires EndToEnd(rs) && Aligned(Regions(rs), a, b) && 0 <= a <= x < b
    ensures InWholeBlock(Regions(rs), a, b, x)
  {
    GridAscends(rs);
    GridStarts(rs);
    hide Starts, Grid;
    var grid := Grid(rs);
    var i :| 0 <= i < |Starts(rs)| && Starts(rs)[i] == a;
    var j :| 0 <= j < |grid| && grid[j] == b;
    var k := BlockBetween(grid, i, j, x);
    assert IsBlock(Regions(rs), grid[k], grid[k + 1]);
  }

  lemma GridStarts(rs: seq<Region>)
    requires rs != []
    ensures forall i :: 0 <= i < |Starts(rs)| ==> Grid(rs)[i] == Starts(rs)[i]
  {
    hide Starts;
  }

  lemma GridHas(rs: seq<Region>, x: int)
    requires rs != []
    ensures x in Grid(rs) <==> x in Starts(rs) || x == End(rs[|rs| - 1])
  {
    hide Starts;
  }

  lemma BlockBetween(s: seq<int>, i: nat, j: nat, x: int) returns (k: nat)
    requires Ascending(s) && i < |s| && j < |s| && s[i] <= x < s[j]
    ensures k + 1 < |s| && s[i] <= s[k] <= x < s[k + 1] <= s[j]
  {
    assert forall p, q :: 0 <= p <= q < |s| ==> s[p] <= s[q];
    k := BlockAround(s[i..j + 1], x);
    k := k + i;
  }

  lemma RegionsIff(rs: seq<Region>, a: int, b: int)
    requires EndToEnd(rs) && 0 <= a < b
    ensures Aligned(Regions(rs), a, b) <==> WholeBlocks(Regions(rs), a, b)
  {
    var g, grid := Regions(rs), Grid(rs);
    if Aligned(g, a, b) {
      forall x | a <= x < b
        ensures InWholeBlock(g, a, b, x)
      {
        AlignedIsWhole(rs, a, b, x);
      }
    }
    if WholeBlocks(g, a, b) {
      assert InWholeBlock(g, a, b, a) && InWholeBlock(g, a, b, b - 1);
      var lo, hi :| IsBlock(g, lo, hi) && a <= lo <= a < hi <= b;
      var lo', hi' :| IsBlock(g, lo', hi') && a <= lo' <= b - 1 < hi' <= b;
      var k :| 0 <= k < |Starts(rs)| && lo == grid[k] && hi == grid[k + 1];
      var k' :| 0 <= k' < |Starts(rs)| && lo' == grid[k'] && hi' == grid[k' + 1];
      assert Starts(rs)[k] == a && grid[k' + 1] == b;
    }
  }

  /** On every sane device the alignment tests accept exactly the unions of whole blocks. */
  lemma AlignedIffWholeBlocks(g: Geometry, a: int, b: int)
    requires Sane(g) && 0 <= a < b
    ensures Aligned(g, a, b) <==> WholeBlocks(g, a, b)
  {
    match g {
      case Absent => assert !InWholeBlock(g, a, b, a);
      case Uniform(e) => UniformIff(e, a, b);
      case Regions(rs) => RegionsIff(rs, a, b);
    }
  }

  // ---- the checks ----

  /** The double loop over regions and blocks: looks for a block that starts at
      target; `start` is where the scan stopped. */
  method ScanBlocks(rs: seq<Region>, target: u32) returns (found: bool, start: u32)
    requires EndToEnd(rs)
    ensures found <==> target in Starts(rs)
    ensures !found ==> start == End(rs[|rs| - 1])
  {
    hide Run, Starts, End;
    var i := 0;
    found, start := false, 0;
    NoStarts(rs);
    while i < |rs|
      invariant i <= |rs|
      invariant target !in Starts(rs[..i])
      invariant i > 0 ==> start == End(rs[i - 1])
    {
      StartsNext(rs, i);
      found, start := ScanRegion(rs[i], target);
      if found {
        StartsPrefix(rs, i + 1, target);
        return;
      }
      i := i + 1;
    }
    assert rs[..|rs|] == rs;
  }

  lemma NoStarts(rs: seq<Region>)
    ensures Starts(rs[..0]) == []
  {
  }

  lemma StartsNext(rs: seq<Region>, i: nat)
    requires i < |rs|
    ensures Starts(rs[..i + 1]) == Starts(rs[..i]) + Run(rs[i].offset, rs[i].eraseSize, rs[i].numBlocks)
  {
    assert rs[..i + 1][..i] == rs[..i];
  }

  /** The blocks of one region. */
  method ScanRegion(r: Region, target: u32) returns (found: bool, start: u32)
    requires r.eraseSize > 0 && r.numBlocks > 0 && r.offset >= 0 && End(r) < WORD
    ensures found <==> target in Run(r.offset, r.eraseSize, r.numBlocks)
    ensures !found ==> start == End(r)
  {
    hide Run;
    RunShape(r.offset, r.eraseSize, r.numBlocks);
    BelowEnd(0, r.numBlocks, r.eraseSize);
    start := r.offset;
    var j := 0;
    while j < r.numBlocks
      invariant j <= r.numBlocks
      invariant start == r.offset + j * r.eraseSize
      invariant forall b :: 0 <= b < j ==> Run(r.offset, r.eraseSize, r.numBlocks)[b] != target
    {
      assert Run(r.offset, r.eraseSize, r.numBlocks)[j] == start;
      if target == start { return true, start; }
      BelowEnd(j, r.numBlocks, r.eraseSize);
      start := Wrap(start + r.eraseSize);
      j := j + 1;
    }
    found := false;
  }

  lemma BelowEnd(j: int, n: int, e: int)
    requires 0 <= j < n && e > 0
    ensures j * e + e <= n * e
    ensures (j + 1) * e == j * e + e
  {
    assert (j + 1) * e <= n * e;
  }

  lemma {:induction false} StartsPrefix(rs: seq<Region>, i: nat, x: int)
    requires i <= |rs| && x in Starts(rs[..i])
    ensures x in Starts(rs)
    decreases |rs| - i
  {
    if i < |rs| {
      assert rs[..i + 1][..i] == rs[..i];
      StartsPrefix(rs, i + 1, x);
    } else {
      assert rs[..i] == rs;
    }
  }

  method ValidateEraseblock(g: Geometry, offset: u32, size: u32) returns (ok: bool)
    requires Sane(g) && size > 0 && offset + size < WORD
    ensures ok <==> Aligned(g, offset, offset + size)
  {
    match g {
      case Absent => return false;
      case Uniform(e) =>
        if offset % e != 0 { return false; }
        if size % e != 0 { return false; }
        return true;
      case Regions(rs) =>
        ok := ValidateRegions(rs, offset, size);
    }
  }

  /** The case of several erase regions. */
  method ValidateRegions(rs: seq<Region>, offset: u32, size: u32) returns (ok: bool)
    requires EndToEnd(rs) && size > 0 && offset + size < WORD
    ensures ok <==> Aligned(Regions(rs), offset, offset + size)
  {
    hide Starts, Grid, End;
    GridHas(rs, offset + size);
    var start;
    ok, start := ScanBlocks(rs, offset);
    if !ok { return false; }
    ok, start := ScanBlocks(rs, Wrap(offset + size));
    if !ok && Wrap(offset + size) == start { return true; }
  }

  function Resolve(id: MtdId, p: Part): Part {
    if p.size == SIZE_REMAINING then p.(size := Wrap(id.size - p.offset)) else p
  }

  /** A fill-up partition ends where its device ends; any other one stays as it is. */
  lemma ResolveIs(id: MtdId, p: Part)
    ensures p.size != SIZE_REMAINING ==> Resolve(id, p) == p
    ensures p.size == SIZE_REMAINING ==> Resolve(id, p) == p.(size := Resolve(id, p).size)
    ensures p.size == SIZE_REMAINING && p.offset <= id.size ==>
              && p.offset + Resolve(id, p).size == id.size
              && (Fits(id, Resolve(id, p)) <==> p.offset < id.size && WholeBlocks(id.geometry, p.offset, id.size))
    ensures p.size == SIZE_REMAINING && p.offset >= id.size ==> !Fits(id, Resolve(id, p))
  {
    hide WholeBlocks;
    if p.size == SIZE_REMAINING {
      var q := Resolve(id, p);
      if p.offset <= id.size { assert q.size == id.size - p.offset; }
    }
  }

  /** The partition part_validate leaves behind, if it accepts. */
  ghost function Validated(id: MtdId, p: Part): Option<Part> {
    var q := Resolve(id, p);
    if Fits(id, q) then Some(q) else None
  }

  /** Not empty, inside the device without 32-bit wrap, and made of whole erase blocks. */
  ghost predicate Fits(id: MtdId, q: Part) {
    && q.size > 0
    && q.offset + q.size <= id.size
    && WholeBlocks(id.geometry, q.offset, q.offset + q.size)
  }

  /** The three comparisons, in 32 bits, are bounds without any wrap. */
  lemma BoundsIff(id: MtdId, q: Part)
    ensures q.offset <= id.size && q.offset < Wrap(q.offset + q.size) <= id.size
            <==> q.size > 0 && q.offset + q.size <= id.size
    ensures q.offset + q.size <= id.size ==> q.offset + q.size < WORD
  {
  }

  /** part_validate accepts exactly the partitions that fit. */
  method PartValidate(id: MtdId, p: Part) returns (ok: bool, q: Part)
    requires Sane(id.geometry)
    ensures q == Resolve(id, p)
    ensures p.size != SIZE_REMAINING ==> q == p
    ensures p.size == SIZE_REMAINING && p.offset <= id.size ==>
              && q == p.(size := q.size) && q.offset + q.size == id.size
              && (ok <==> p.offset < id.size && WholeBlocks(id.geometry, p.offset, id.size))
    ensures p.size == SIZE_REMAINING && p.offset >= id.size ==> !ok
    ensures ok <==> Fits(id, q)
  {
    hide WholeBlocks, Sane, Wrap, Aligned;
    q := p;
    BoundsIff(id, Resolve(id, p));
    ResolveIs(id, p);
    if q.size == SIZE_REMAINING {
      q := q.(size := Wrap(id.size - q.offset));
    }
    if q.offset > id.size {
      return false, q;
    }
    if Wrap(q.offset + q.size) <= q.offset {
      return false, q;
    }
    if Wrap(q.offset + q.size) > id.size {
      return false, q;
    }
    AlignedIffWholeBlocks(id.geometry, q.offset, q.offset + q.size);
    ok := ValidateEraseblock(id.geometry, q.offset, q.size);
  }
}

/** OneNAND: data laid out over the blocks that are not skipped. */
module OneNandBlocks {

  type byte = x: int | 0 <= x < 256

  /** What the erase blocks hold. */
  type Blocks = seq<seq<byte>>

  predicate Sized(mem: Blocks, bs: nat) { forall b :: 0 <= b < |mem| ==> |mem[b]| == bs }

  /** From block b on there are n blocks that are not skipped. */
  predicate Enough(skip: seq<bool>, b: nat, n: nat)
    decreases |skip| - b
  {
    n == 0 || (b < |skip| && Enough(skip, b + 1, if skip[b] then n else n - 1))
  }

  /** The block behind the n-th block from b on that is not skipped. */
  function After(skip: seq<bool>, b: nat, n: nat): (e: nat)
    requires Enough(skip, b, n)
    ensures e >= b + n
    ensures n > 0 ==> e <= |skip|
    decreases |skip| - b
  {
    if n == 0 then b else After(skip, b + 1, if skip[b] then n else n - 1)
  }

  /** n blocks of data go to the blocks from b on that are not skipped. */
  function Store(mem: Blocks, skip: seq<bool>, b: nat, n: nat, data: seq<byte>, bs: nat): (r: Blocks)
    requires |mem| == |skip| && Enough(skip, b, n) && |data| >= n * bs && bs > 0
    ensures |r| == |mem|
    decreases |skip| - b
  {
    if n == 0 then mem
    else if skip[b] then Store(mem, skip, b + 1, n, data, bs)
    else
      OneLess(n, bs);
      Store(mem[b := data[..bs]], skip, b + 1, n - 1, data[bs..], bs)
  }

  /** What n blocks from b on that are not skipped hold. */
  function Load(mem: Blocks, skip: seq<bool>, b: nat, n: nat): seq<byte>
    requires |mem| == |skip| && Enough(skip, b, n)
    decreases |skip| - b
  {
    if n == 0 then []
    else if skip[b] then Load(mem, skip, b + 1, n)
    else mem[b] + Load(mem, skip, b + 1, n - 1)
  }

  lemma OneLess(n: nat, bs: nat)
    requires n > 0
    ensures n * bs == bs + (n - 1) * bs && (n - 1) * bs >= 0
  {
  }

  /** Storing touches neither skipped blocks nor blocks outside its stretch. */
  lemma {:induction false} StoreLeaves(mem: Blocks, skip: seq<bool>, b: nat, n: nat, data: seq<byte>, bs: nat, i: nat)
    requires |mem| == |skip| && Enough(skip, b, n) && |data| >= n * bs && bs > 0 && i < |mem|
    requires skip[i] || i < b || i >= After(skip, b, n)
    ensures Store(mem, skip, b, n, data, bs)[i] == mem[i]
    decreases |skip| - b
  {
    if n > 0 {
      OneLess(n, bs);
      if skip[b] {
        StoreLeaves(mem, skip, b + 1, n, data, bs, i);
      } else {
        StoreLeaves(mem[b := data[..bs]], skip, b + 1, n - 1, data[bs..], bs, i);
      }
    }
  }

  lemma {:induction false} StoreSized(mem: Blocks, skip: seq<bool>, b: nat, n: nat, data: seq<byte>, bs: nat)
    requires |mem| == |skip| && Enough(skip, b, n) && |data| >= n * bs && bs > 0 && Sized(mem, bs)
    ensures Sized(Store(mem, skip, b, n, data, bs), bs)
    decreases |skip| - b
  {
    if n > 0 {
      OneLess(n, bs);
      if skip[b] {
        StoreSized(mem, skip, b + 1, n, data, bs);
      } else {
        StoreSized(mem[b := data[..bs]], skip, b + 1, n - 1, data[bs..], bs);
      }
    }
  }

  /** Loading gives back what was stored. */
  lemma {:induction false} LoadStored(mem: Blocks, skip: seq<bool>, b: nat, n: nat, data: seq<byte>, bs: nat)
    requires |mem| == |skip| && Enough(skip, b, n) && |data| >= n * bs && bs > 0
    ensures Load(Store(mem, skip, b, n, data, bs), skip, b, n) == data[..n * bs]
    decreases |skip| - b
  {
    if n > 0 {
      OneLess(n, bs);
      if skip[b] {
        LoadStored(mem, skip, b + 1, n, data, bs);
      } else {
        var mem' := mem[b := data[..bs]];
        LoadStored(mem', skip, b + 1, n - 1, data[bs..], bs);
        StoreLeaves(mem', skip, b + 1, n - 1, data[bs..], bs, b);
        FrontAndRest(data, bs, (n - 1) * bs);
      }
    }
  }

  lemma FrontAndRest(data: seq<byte>, a: nat, m: nat)
    requires a + m <= |data|
    ensures data[..a] + data[a..][..m] == data[..a + m]
  {
  }

  lemma {:induction false} EnoughSplit(skip: seq<bool>, b: nat, n: nat, m: nat)
    ensures Enough(skip, b, n + m) <==> Enough(skip, b, n) && Enough(skip, After'(skip, b, n), m)
    ensures Enough(skip, b, n + m) ==> After(skip, b, n + m) == After(skip, After(skip, b, n), m)
    decreases |skip| - b
  {
    if n > 0 && b < |skip| {
      EnoughSplit(skip, b + 1, if skip[b] then n else n - 1, m);
    }
  }

  /** After, made total. */
  function After'(skip: seq<bool>, b: nat, n: nat): nat {
    if Enough(skip, b, n) then After(skip, b, n) else 0
  }

  /** Storing in two goes, the second where the first one stopped, is storing once. */
  lemma {:induction false} StoreTwice(mem: Blocks, skip: seq<bool>, b: nat, n: nat, m: nat, x: seq<byte>, y: seq<byte>,
                                      bs: nat)
    requires |mem| == |skip| && bs > 0 && |x| == n * bs && |y| >= m * bs && |x + y| >= (n + m) * bs
    requires Enough(skip, b, n + m) && Enough(skip, b, n) && Enough(skip, After(skip, b, n), m)
    ensures Store(Store(mem, skip, b, n, x, bs), skip, After(skip, b, n), m, y, bs)
         == Store(mem, skip, b, n + m, x + y, bs)
    decreases |skip| - b
  {
    if n == 0 {
      assert x + y == y;
    } else if skip[b] {
      StoreTwice(mem, skip, b + 1, n, m, x, y, bs);
    } else {
      OneLess(n, bs);
      OneLess(n + m, bs);
      var z := x[bs..];
      assert (x + y)[..bs] == x[..bs] && (x + y)[bs..] == z + y;
      StoreTwice(mem[b := x[..bs]], skip, b + 1, n - 1, m, z, y, bs);
    }
  }
}

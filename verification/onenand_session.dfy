/** Writes that carry the skipped distance from one call to the next, and a read of
    everything written. */
module OneNandSession {
  import opened OneNandBlocks

  /** next_ofs, skip_ofs and the chip. */
  datatype Chip = Chip(nextOfs: int, skipOfs: nat, mem: Blocks)

  predicate OkChip(c: Chip, skip: seq<bool>, bs: nat) {
    bs > 0 && |c.mem| == |skip| && Sized(c.mem, bs) && c.skipOfs % bs == 0
  }

  /** Where a write to `to` really starts. */
  function Start(c: Chip, to: nat): nat { if to == c.nextOfs then to + c.skipOfs else to }

  /** A write the loop can finish: whole blocks at a block boundary, with room for them. */
  predicate CanWrite(c: Chip, skip: seq<bool>, to: nat, data: seq<byte>, bs: nat) {
    && OkChip(c, skip, bs) && to % bs == 0
    && Enough(skip, BlockOf(Start(c, to), bs), BlockOf(|data|, bs))
  }

  /** `ofs >> erase_shift` */
  function BlockOf(ofs: nat, bs: nat): nat
    requires bs > 0
  {
    ofs / bs
  }

  lemma WholeBlocks(len: nat, bs: nat)
    requires bs > 0
    ensures BlockOf(len, bs) * bs <= len
    ensures len % bs == 0 ==> BlockOf(len, bs) * bs == len
  {
  }

  /** The bytes of k blocks. */
  function Span(k: nat, bs: nat): nat { k * bs }

  /** onenand_block_write */
  function Write(c: Chip, skip: seq<bool>, to: nat, data: seq<byte>, bs: nat): Chip
    requires CanWrite(c, skip, to, data, bs)
  {
    WholeBlocks(|data|, bs);
    var b, n := BlockOf(Start(c, to), bs), BlockOf(|data|, bs);
    Chip(to + |data|,
         (if to == c.nextOfs then c.skipOfs else 0) + Span(After(skip, b, n) - b - n, bs),
         Store(c.mem, skip, b, n, data, bs))
  }

  function Concat(chunks: seq<seq<byte>>): seq<byte> {
    if chunks == [] then [] else Concat(chunks[..|chunks| - 1]) + chunks[|chunks| - 1]
  }

  /** Back-to-back writes from t0: each starts at the logical end of the one before. */
  ghost predicate Session(cs: seq<Chip>, skip: seq<bool>, t0: nat, chunks: seq<seq<byte>>, bs: nat) {
    && bs > 0 && t0 % bs == 0
    && |cs| == |chunks| + 1
    && OkChip(cs[0], skip, bs)
    && (forall i :: 0 <= i < |chunks| ==> |chunks[i]| % bs == 0)
    && (forall i :: 0 <= i < |chunks| ==> Follows(cs[i], cs[i + 1], skip, t0 + |Concat(chunks[..i])|, chunks[i], bs))
  }

  ghost predicate Follows(c: Chip, c': Chip, skip: seq<bool>, to: nat, data: seq<byte>, bs: nat) {
    CanWrite(c, skip, to, data, bs) && c' == Write(c, skip, to, data, bs)
  }

  // ---- a session is one write ----

  /** After `done` has been written the chip is as after one write of it all, and the skipped
      distance leads from the logical end to the physical one. */
  ghost predicate Written(c0: Chip, c: Chip, skip: seq<bool>, t: nat, s: nat, n: nat, done: seq<byte>, bs: nat) {
    && bs > 0 && OkChip(c0, skip, bs) && OkChip(c, skip, bs) && |done| == n * bs
    && Enough(skip, s, n)
    && After(skip, s, n) >= t + n
    && c.nextOfs == (t + n) * bs
    && c.skipOfs == (After(skip, s, n) - t - n) * bs
    && c.mem == Store(c0.mem, skip, s, n, done, bs)
  }

  lemma Times(a: int, b: int, bs: nat)
    requires bs > 0
    ensures (a + b) * bs == a * bs + b * bs && (a - b) * bs == a * bs - b * bs
    ensures a >= 0 ==> a * bs >= 0 && BlockOf(a * bs, bs) == a
    ensures a * bs % bs == 0
  {
  }

  lemma WriteOk(c: Chip, skip: seq<bool>, to: nat, data: seq<byte>, bs: nat)
    requires CanWrite(c, skip, to, data, bs)
    ensures OkChip(Write(c, skip, to, data, bs), skip, bs)
  {
    hide Store, Enough, After;
    WholeBlocks(|data|, bs);
    var b, n := BlockOf(Start(c, to), bs), BlockOf(|data|, bs);
    StoreSized(c.mem, skip, b, n, data, bs);
    var k := if to == c.nextOfs then BlockOf(c.skipOfs, bs) else 0;
    WholeBlocks(c.skipOfs, bs);
    var gap := After(skip, b, n) - b - n;
    Times(k, gap, bs);
    Times(k + gap, 0, bs);
    assert Write(c, skip, to, data, bs).skipOfs == (k + gap) * bs;
  }

  /** The first write of a session. */
  lemma FirstWrite(c0: Chip, skip: seq<bool>, t: nat, data: seq<byte>, bs: nat)
    requires bs > 0 && CanWrite(c0, skip, t * bs, data, bs) && |data| % bs == 0
    ensures var s := BlockOf(Start(c0, t * bs), bs);
            s >= t && Written(c0, Write(c0, skip, t * bs, data, bs), skip, t, s, BlockOf(|data|, bs), data, bs)
  {
    hide Store, Enough, After;
    var n := BlockOf(|data|, bs);
    WholeBlocks(|data|, bs);
    Times(t, n, bs);
    var k := if t * bs == c0.nextOfs then BlockOf(c0.skipOfs, bs) else 0;
    Times(t, k, bs);
    Times(t + k, 0, bs);
    var s := BlockOf(Start(c0, t * bs), bs);
    WholeBlocks(c0.skipOfs, bs);
    assert s == t + k;
    var e := After(skip, s, n);
    Times(k, e - s - n, bs);
    WriteOk(c0, skip, t * bs, data, bs);
  }

  /** A write that starts where the session stands. */
  lemma NextWrite(c0: Chip, c: Chip, skip: seq<bool>, t: nat, s: nat, n: nat, done: seq<byte>, data: seq<byte>, bs: nat)
    requires Written(c0, c, skip, t, s, n, done, bs)
    requires CanWrite(c, skip, (t + n) * bs, data, bs) && |data| % bs == 0
    ensures Written(c0, Write(c, skip, (t + n) * bs, data, bs), skip, t, s, n + BlockOf(|data|, bs), done + data, bs)
  {
    hide Store, Enough, After;
    var m := BlockOf(|data|, bs);
    WholeBlocks(|data|, bs);
    var e := After(skip, s, n);
    Times(t + n, e - t - n, bs);
    assert Start(c, (t + n) * bs) == e * bs;
    Times(e, 0, bs);
    Times(t + n, m, bs);
    Times(n, m, bs);
    EnoughSplit(skip, s, n, m);
    AfterTotal(skip, s, n);
    StoreTwice(c0.mem, skip, s, n, m, done, data, bs);
    var f := After(skip, e, m);
    Times(e - t - n, f - e - m, bs);
    WriteOk(c, skip, (t + n) * bs, data, bs);
  }

  lemma AfterTotal(skip: seq<bool>, s: nat, n: nat)
    requires Enough(skip, s, n)
    ensures After'(skip, s, n) == After(skip, s, n)
  {
  }

  lemma {:induction false} SessionWrites(cs: seq<Chip>, skip: seq<bool>, t0: nat, chunks: seq<seq<byte>>, bs: nat,
                                         i: nat)
    requires Session(cs, skip, t0, chunks, bs) && 0 < i <= |chunks|
    ensures var done := Concat(chunks[..i]);
            && BlockOf(Start(cs[0], t0), bs) >= BlockOf(t0, bs)
            && Written(cs[0], cs[i], skip, BlockOf(t0, bs), BlockOf(Start(cs[0], t0), bs), BlockOf(|done|, bs), done,
                       bs)
    decreases i
  {
    hide CanWrite, Write, Written;
    var t := BlockOf(t0, bs);
    WholeBlocks(t0, bs);
    assert chunks[..i][..i - 1] == chunks[..i - 1] && chunks[..i][i - 1] == chunks[i - 1];
    if i == 1 {
      assert Concat(chunks[..0]) == [];
      assert Follows(cs[0], cs[1], skip, t0 + |Concat(chunks[..0])|, chunks[0], bs);
      assert [] + chunks[0] == chunks[0];
      FirstWrite(cs[0], skip, t, chunks[0], bs);
    } else {
      SessionWrites(cs, skip, t0, chunks, bs, i - 1);
      var done := Concat(chunks[..i - 1]);
      var n := BlockOf(|done|, bs);
      assert Follows(cs[i - 1], cs[i], skip, t0 + |done|, chunks[i - 1], bs);
      WrittenSize(cs[0], cs[i - 1], skip, t, BlockOf(Start(cs[0], t0), bs), n, done, bs);
      Times(t, n, bs);
      NextWrite(cs[0], cs[i - 1], skip, t, BlockOf(Start(cs[0], t0), bs), n, done, chunks[i - 1], bs);
      WholeBlocks(|chunks[i - 1]|, bs);
      Times(n, BlockOf(|chunks[i - 1]|, bs), bs);
      Times(n + BlockOf(|chunks[i - 1]|, bs), 0, bs);
    }
  }

  lemma WrittenSize(c0: Chip, c: Chip, skip: seq<bool>, t: nat, s: nat, n: nat, done: seq<byte>, bs: nat)
    requires Written(c0, c, skip, t, s, n, done, bs)
    ensures |done| == n * bs
  {
  }

  // ---- reading it back ----

  /** Reading passes over block i exactly when the session did not write it, for every block from
      the logical start to the end of the writing. */
  ghost predicate Matched(skip: seq<bool>, skipR: seq<bool>, t: nat, s: nat, n: nat)
    requires |skip| == |skipR| && Enough(skip, s, n)
  {
    forall i :: t <= i < After(skip, s, n) && i < |skip| ==> (skipR[i] <==> i < s || skip[i])
  }

  lemma AfterWithin(skip: seq<bool>, s: nat, n: nat)
    requires Enough(skip, s, n) && n > 0
    ensures s < After(skip, s, n) <= |skip|
  {
  }

  lemma {:induction false} LoadMatched(mem: Blocks, skip: seq<bool>, skipR: seq<bool>, t: nat, s: nat, n: nat)
    requires |mem| == |skip| == |skipR| && t <= s && Enough(skip, s, n) && Matched(skip, skipR, t, s, n)
    ensures Enough(skipR, t, n) && Load(mem, skipR, t, n) == Load(mem, skip, s, n)
    decreases |skip| - t
  {
    if n > 0 {
      AfterWithin(skip, s, n);
      if t < s {
        LoadMatched(mem, skip, skipR, t + 1, s, n);
      } else {
        LoadMatched(mem, skip, skipR, t + 1, s + 1, if skip[s] then n else n - 1);
      }
    }
  }

  /** One read of the total length returns all that was written, when it passes over the blocks
      that were not written and no others. */
  lemma ReadsBack(cs: seq<Chip>, skip: seq<bool>, skipR: seq<bool>, t0: nat, chunks: seq<seq<byte>>, bs: nat)
    requires Session(cs, skip, t0, chunks, bs) && chunks != [] && |skip| == |skipR|
    ensures var n, t, s := BlockOf(|Concat(chunks)|, bs), BlockOf(t0, bs), BlockOf(Start(cs[0], t0), bs);
            && Enough(skip, s, n) && |cs[|chunks|].mem| == |skip|
            && (Matched(skip, skipR, t, s, n) ==>
                  Enough(skipR, t, n) && Load(cs[|chunks|].mem, skipR, t, n) == Concat(chunks))
  {
    hide Load, Enough, After, Store, Concat, BlockOf, Follows, Matched;
    var all := Concat(chunks);
    var n, t, s := BlockOf(|all|, bs), BlockOf(t0, bs), BlockOf(Start(cs[0], t0), bs);
    assert chunks[..|chunks|] == chunks;
    SessionWrites(cs, skip, t0, chunks, bs, |chunks|);
    WholeBlocks(|all|, bs);
    LoadStored(cs[0].mem, skip, s, n, all, bs);
    assert all[..n * bs] == all;
    if Matched(skip, skipR, t, s, n) { LoadMatched(cs[|chunks|].mem, skip, skipR, t, s, n); }
  }

  // ---- data that is lost ----

  lemma {:induction false} FirstRead(skip: seq<bool>, a: nat, n: nat) returns (u: nat)
    requires n > 0 && Enough(skip, a, n)
    ensures a <= u < |skip| && !skip[u] && forall i :: a <= i < u ==> skip[i]
    decreases |skip| - a
  {
    if skip[a] { u := FirstRead(skip, a + 1, n); } else { u := a; }
  }

  /** A read begins with the first block it does not pass over. */
  lemma {:induction false} LoadBegins(mem: Blocks, skip: seq<bool>, a: nat, u: nat, n: nat)
    requires |mem| == |skip| && a <= u < |skip| && !skip[u] && (forall i :: a <= i < u ==> skip[i])
    requires n > 0 && Enough(skip, a, n)
    ensures |Load(mem, skip, a, n)| >= |mem[u]| && Load(mem, skip, a, n)[..|mem[u]|] == mem[u]
    decreases u - a
  {
    if a < u { LoadBegins(mem, skip, a + 1, u, n); }
  }

  /** Storing one value everywhere leaves it where it is. */
  lemma {:induction false} StoreSame(mem: Blocks, skip: seq<bool>, b: nat, n: nat, data: seq<byte>, bs: nat, j: nat)
    requires |mem| == |skip| && Enough(skip, b, n) && |data| >= n * bs && bs > 0 && Sized(mem, bs) && j < |mem|
    requires forall k :: 0 <= k < |data| ==> data[k] == mem[j][0]
    ensures Sized(Store(mem, skip, b, n, data, bs), bs)
    ensures Store(mem, skip, b, n, data, bs)[j][0] == mem[j][0]
    decreases |skip| - b
  {
    if n > 0 {
      OneLess(n, bs);
      if skip[b] {
        StoreSame(mem, skip, b + 1, n, data, bs, j);
      } else {
        StoreSame(mem[b := data[..bs]], skip, b + 1, n - 1, data[bs..], bs, j);
      }
    }
  }

  function Other(b: byte): byte { if b == 0 then 1 else 0 }

  /** When the first read block is one that is not written. */
  lemma ReadsOld(mem: Blocks, skip: seq<bool>, skipR: seq<bool>, t: nat, s: nat, n: nat, bs: nat)
    returns (data: seq<byte>)
    requires |mem| == |skip| == |skipR| && bs > 0 && Sized(mem, bs) && Enough(skip, s, n) && n > 0
    requires t < |skip| && !skipR[t] && (t < s || skip[t])
    ensures |data| == n * bs
    ensures Enough(skipR, t, n) ==> Load(Store(mem, skip, s, n, data, bs), skipR, t, n) != data
  {
    OneLess(n, bs);
    data := seq(n * bs, _ => Other(mem[t][0]));
    StoreLeaves(mem, skip, s, n, data, bs, t);
    if Enough(skipR, t, n) { LoadBegins(Store(mem, skip, s, n, data, bs), skipR, t, t, n); }
  }

  /** When the first written block is one that is not read. */
  lemma MissesNew(mem: Blocks, skip: seq<bool>, skipR: seq<bool>, s: nat, n: nat, bs: nat) returns (data: seq<byte>)
    requires |mem| == |skip| == |skipR| && bs > 0 && Sized(mem, bs) && Enough(skip, s, n) && n > 0
    requires !skip[s] && skipR[s]
    ensures |data| == n * bs
    ensures Enough(skipR, s, n) ==> Load(Store(mem, skip, s, n, data, bs), skipR, s, n) != data
  {
    OneLess(n, bs);
    if Enough(skipR, s, n) {
      var j := FirstRead(skipR, s, n);
      var v := mem[j][0];
      var x, rest := seq(bs, _ => Other(v)), seq((n - 1) * bs, _ => v);
      data := x + rest;
      assert data[..bs] == x && data[bs..] == rest;
      StoreSame(mem[s := x], skip, s + 1, n - 1, rest, bs, j);
      LoadBegins(Store(mem, skip, s, n, data, bs), skipR, s, j, n);
    } else {
      data := seq(n * bs, _ => 0);
    }
  }

  /** Where the blocks told apart differ, there is data that does not come back. */
  lemma {:induction false} Loses(mem: Blocks, skip: seq<bool>, skipR: seq<bool>, t: nat, s: nat, n: nat, bs: nat)
    returns (data: seq<byte>)
    requires |mem| == |skip| == |skipR| && bs > 0 && Sized(mem, bs) && t <= s && Enough(skip, s, n) && n > 0
    requires !Matched(skip, skipR, t, s, n)
    ensures |data| == n * bs
    ensures Enough(skipR, t, n) ==> Load(Store(mem, skip, s, n, data, bs), skipR, t, n) != data
    decreases |skip| - t
  {
    AfterWithin(skip, s, n);
    if !skipR[t] && (t < s || skip[t]) {
      data := ReadsOld(mem, skip, skipR, t, s, n, bs);
    } else if t < s {
      data := Loses(mem, skip, skipR, t + 1, s, n, bs);
    } else if skip[s] {
      data := Loses(mem, skip, skipR, t + 1, s + 1, n, bs);
    } else if skipR[s] {
      data := MissesNew(mem, skip, skipR, s, n, bs);
    } else {
      OneLess(n, bs);
      var x := seq(bs, _ => 0);
      var mem' := mem[s := x];
      var rest := Loses(mem', skip, skipR, s + 1, s + 1, n - 1, bs);
      data := x + rest;
      assert data[..bs] == x && data[bs..] == rest;
      StoreLeaves(mem', skip, s + 1, n - 1, rest, bs, s);
      assert data[|x|..] == rest;
    }
  }

  /** All sessions of n blocks from t0 can be read back. */
  ghost predicate AlwaysReadsBack(c: Chip, skip: seq<bool>, skipR: seq<bool>, t0: nat, n: nat, bs: nat)
    requires OkChip(c, skip, bs) && |skip| == |skipR|
  {
    forall cs: seq<Chip>, chunks: seq<seq<byte>> ::
      Session(cs, skip, t0, chunks, bs) && cs[0] == c && chunks != [] && |Concat(chunks)| == n * bs ==>
        && Enough(skipR, BlockOf(t0, bs), n) && |cs[|chunks|].mem| == |skip|
        && Load(cs[|chunks|].mem, skipR, BlockOf(t0, bs), n) == Concat(chunks)
  }

  /** A session of one write whose data does not come back. */
  lemma SessionLoses(c: Chip, skip: seq<bool>, skipR: seq<bool>, t0: nat, n: nat, bs: nat)
    returns (cs: seq<Chip>, chunks: seq<seq<byte>>)
    requires OkChip(c, skip, bs) && |skip| == |skipR| && t0 % bs == 0 && n > 0
    requires Enough(skip, BlockOf(Start(c, t0), bs), n)
    requires !Matched(skip, skipR, BlockOf(t0, bs), BlockOf(Start(c, t0), bs), n)
    ensures Session(cs, skip, t0, chunks, bs) && cs[0] == c && chunks != [] && |Concat(chunks)| == n * bs
    ensures |cs[|chunks|].mem| == |skip|
    ensures Enough(skipR, BlockOf(t0, bs), n) ==>
              Load(cs[|chunks|].mem, skipR, BlockOf(t0, bs), n) != Concat(chunks)
  {
    hide Load, Enough, After, Store, Matched;
    var t, s := BlockOf(t0, bs), BlockOf(Start(c, t0), bs);
    StartsBehind(c, t0, bs);
    var data := Loses(c.mem, skip, skipR, t, s, n, bs);
    Times(n, 0, bs);
    chunks := [data];
    cs := [c, Write(c, skip, t0, data, bs)];
    OneChunk(data);
  }

  lemma StartsBehind(c: Chip, t0: nat, bs: nat)
    requires bs > 0 && t0 % bs == 0 && c.skipOfs % bs == 0
    ensures BlockOf(t0, bs) <= BlockOf(Start(c, t0), bs)
  {
    WholeBlocks(t0, bs);
    WholeBlocks(c.skipOfs, bs);
    var t, k := BlockOf(t0, bs), BlockOf(c.skipOfs, bs);
    Times(t, k, bs);
    Times(t + k, 0, bs);
  }

  lemma OneChunk(data: seq<byte>)
    ensures Concat([data]) == data && Concat([data][..0]) == []
  {
    assert [data][..0] == [];
    assert [] + data == data;
  }

  /** The round trip holds for all data exactly when reading passes over the blocks that were not
      written and no others, those carried over at the start included. */
  lemma ReadsBackIff(c: Chip, skip: seq<bool>, skipR: seq<bool>, t0: nat, n: nat, bs: nat)
    requires OkChip(c, skip, bs) && |skip| == |skipR| && t0 % bs == 0 && n > 0
    requires Enough(skip, BlockOf(Start(c, t0), bs), n)
    ensures AlwaysReadsBack(c, skip, skipR, t0, n, bs)
            <==> Matched(skip, skipR, BlockOf(t0, bs), BlockOf(Start(c, t0), bs), n)
  {
    hide Matched, Load, Enough, Concat, Follows;
    if Matched(skip, skipR, BlockOf(t0, bs), BlockOf(Start(c, t0), bs), n) {
      forall cs: seq<Chip>, chunks: seq<seq<byte>> | Session(cs, skip, t0, chunks, bs) && cs[0] == c && chunks != []
        && |Concat(chunks)| == n * bs
        ensures Enough(skipR, BlockOf(t0, bs), n) && |cs[|chunks|].mem| == |skip|
        ensures Load(cs[|chunks|].mem, skipR, BlockOf(t0, bs), n) == Concat(chunks)
      {
        Times(n, 0, bs);
        ReadsBack(cs, skip, skipR, t0, chunks, bs);
      }
    } else {
      var cs, chunks := SessionLoses(c, skip, skipR, t0, n, bs);
    }
  }

  // ---- one map for writing and reading ----

  /** That start was new, or there is no usable block between it and the place where the writing
      really began. */
  ghost predicate Clear(c: Chip, skip: seq<bool>, t0: nat, bs: nat)
    requires bs > 0
  {
    t0 == c.nextOfs ==> forall i :: BlockOf(t0, bs) <= i < BlockOf(Start(c, t0), bs) && i < |skip| ==> skip[i]
  }

  /** When the blocks that fail to write are those that fail to read, only a distance carried over
      from an earlier session can lose data. */
  lemma SameMapIff(c: Chip, skip: seq<bool>, t0: nat, n: nat, bs: nat)
    requires OkChip(c, skip, bs) && n > 0 && Enough(skip, BlockOf(Start(c, t0), bs), n)
    ensures Matched(skip, skip, BlockOf(t0, bs), BlockOf(Start(c, t0), bs), n) <==> Clear(c, skip, t0, bs)
  {
    hide Enough, After;
    AfterWithin(skip, BlockOf(Start(c, t0), bs), n);
  }

  /** Data that a stale distance loses. */
  lemma StaleLoses(c: Chip, skip: seq<bool>, t0: nat, n: nat, bs: nat) returns (cs: seq<Chip>, chunks: seq<seq<byte>>)
    requires OkChip(c, skip, bs) && t0 % bs == 0 && n > 0
    requires !Clear(c, skip, t0, bs) && Enough(skip, BlockOf(Start(c, t0), bs), n)
    ensures Session(cs, skip, t0, chunks, bs) && cs[0] == c && chunks != [] && |Concat(chunks)| == n * bs
    ensures Enough(skip, BlockOf(t0, bs), n) && |cs[|chunks|].mem| == |skip|
    ensures Load(cs[|chunks|].mem, skip, BlockOf(t0, bs), n) != Concat(chunks)
  {
    SameMapIff(c, skip, t0, n, bs);
    hide Session, Load, Enough, Matched, Clear;
    StartsBehind(c, t0, bs);
    EnoughEarlier(skip, BlockOf(t0, bs), BlockOf(Start(c, t0), bs), n);
    cs, chunks := SessionLoses(c, skip, skip, t0, n, bs);
  }

  lemma {:induction false} EnoughEarlier(skip: seq<bool>, a: nat, b: nat, n: nat)
    requires a <= b && Enough(skip, b, n)
    ensures Enough(skip, a, n)
    decreases b - a
  {
    if n > 0 && a < b {
      EnoughEarlier(skip, a + 1, b, n);
      if !skip[a] { FewerEnough(skip, a + 1, n); }
    }
  }

  lemma {:induction false} FewerEnough(skip: seq<bool>, b: nat, n: nat)
    requires n > 0 && Enough(skip, b, n)
    ensures Enough(skip, b, n - 1)
    decreases |skip| - b
  {
    if skip[b] { FewerEnough(skip, b + 1, n); } else if n > 1 { FewerEnough(skip, b + 1, n - 1); }
  }

  /** A block that fails to write and reads without an error: what is read is what it held. */
  lemma FailedWriteReads()
    ensures var skip, skipR := [true, false], [false, false];
            && Enough(skip, 0, 1) && Enough(skipR, 0, 1) && !Matched(skip, skipR, 0, 0, 1)
            && Load(Store([[0], [0]], skip, 0, 1, [1], 1), skipR, 0, 1) == [0]
  {
    var skip, skipR, mem := [true, false], [false, false], [[0], [0]];
    assert Enough(skip, 1, 1) && Enough(skipR, 1, 0) && Enough(skip, 2, 0);
    assert After(skip, 0, 1) == After(skip, 1, 1) == After(skip, 2, 0) == 2;
    assert Store(mem, skip, 0, 1, [1], 1) == Store(mem, skip, 1, 1, [1], 1);
    assert Store(mem, skip, 1, 1, [1], 1) == Store(mem[1 := [1][..1]], skip, 2, 0, [1][1..], 1);
  }
}

/** The block loops of the onenand command on a chip with bad blocks and blocks that
    fail to write or to read. */
module OneNandDevice {
  import opened OneNandBlocks
  import opened OneNandSession

  class OneNand {
    const bs: nat
    const bad: seq<bool>
    const failsWrite: seq<bool>
    const failsRead: seq<bool>
    var mem: Blocks
    var nextOfs: int
    var skipOfs: nat

    ghost predicate Valid()
      reads `mem, `skipOfs
    {
      && bs > 0 && |bad| == |failsWrite| == |failsRead| == |mem|
      && Sized(mem, bs) && skipOfs % bs == 0
    }

    function State(): Chip
      reads `mem, `nextOfs, `skipOfs
    {
      Chip(nextOfs, skipOfs, mem)
    }

    /** The blocks a write passes over, and those a read passes over. */
    function SkipW(): (r: seq<bool>)
      requires |bad| == |failsWrite|
      ensures |r| == |bad| && forall b :: 0 <= b < |r| ==> (!r[b] <==> !bad[b] && !failsWrite[b])
    {
      seq(|bad|, b requires 0 <= b < |bad| => bad[b] || failsWrite[b])
    }

    function SkipR(): (r: seq<bool>)
      requires |bad| == |failsRead|
      ensures |r| == |bad| && forall b :: 0 <= b < |r| ==> (!r[b] <==> !bad[b] && !failsRead[b])
    {
      seq(|bad|, b requires 0 <= b < |bad| => bad[b] || failsRead[b])
    }

    constructor (bs: nat, bad: seq<bool>, failsWrite: seq<bool>, failsRead: seq<bool>, mem: Blocks)
      requires bs > 0 && |bad| == |failsWrite| == |failsRead| == |mem| && Sized(mem, bs)
      ensures Valid() && State() == Chip(0, 0, mem)
      ensures this.bs == bs && this.bad == bad && this.failsWrite == failsWrite && this.failsRead == failsRead
    {
      this.bs, this.bad, this.failsWrite, this.failsRead, this.mem := bs, bad, failsWrite, failsRead, mem;
      nextOfs, skipOfs := 0, 0;
    }

    /** mtd->write of one block. */
    method MtdWrite(ghost b: nat, ofs: nat, data: seq<byte>) returns (ret: int)
      requires Valid() && |data| == bs && b < |bad| && ofs == Span(b, bs)
      modifies `mem
      ensures Valid()
      ensures ret != 0 <==> failsWrite[b]
      ensures mem == if ret == 0 then old(mem)[b := data] else old(mem)
    {
      Times(b, 0, bs);
      var block := BlockOf(ofs, bs);
      if failsWrite[block] { return -5; }
      mem := mem[block := data];
      return 0;
    }

    /** onenand_block_write */
    method BlockWrite(to: nat, data: seq<byte>) returns (retlen: nat)
      requires Valid() && CanWrite(State(), SkipW(), to, data, bs)
      modifies this
      ensures Valid() && State() == Write(old(State()), SkipW(), to, data, bs)
      ensures retlen == Span(BlockOf(|data|, bs), bs)
      ensures forall b :: 0 <= b < |bad| && (bad[b] || failsWrite[b]) ==> mem[b] == old(mem)[b]
    {
      hide Store, After, Enough, Write, CanWrite, Left, Span;
      WriteIs(State(), SkipW(), to, data, bs);
      WriteOk(State(), SkipW(), to, data, bs);
      ghost var was := State();
      var blocks: nat := BlockOf(|data|, bs);
      ghost var n: nat := blocks;
      var ofs := to;
      if to == nextOfs {
        nextOfs := to + |data|;
        ofs := ofs + skipOfs;
      } else {
        nextOfs := to + |data|;
        skipOfs := 0;
      }
      ghost var start, skip0, skip := BlockOf(ofs, bs), skipOfs, SkipW();
      ghost var b: nat := start;
      var buf := data;
      retlen := 0;
      StartAligned(was, to, bs);
      LeftAll(was.mem, skip, start, n, data, bs);
      SpanZero(bs);
      while blocks > 0
        invariant Valid() && nextOfs == to + |data| && blocks <= n && b >= start + (n - blocks)
        invariant forall k :: 0 <= k < |bad| && (bad[k] || failsWrite[k]) ==> mem[k] == was.mem[k]
        invariant Left(was.mem, skip, start, n, data, mem, b, blocks, buf, bs)
        invariant ofs == Span(b, bs) && retlen == Span(n - blocks, bs)
        invariant skipOfs == skip0 + Span(b - start - (n - blocks), bs)
        decreases |bad| - b
      {
        LeftOne(was.mem, skip, start, n, data, mem, b, blocks, buf, bs);
        SpanNext(b, bs);
        SpanNext(b - start - (n - blocks), bs);
        SpanNext(n - blocks, bs);
        OneMore(skipOfs, bs);
        if bad[BlockOf(ofs, bs)] {
          skipOfs := skipOfs + bs;
        } else {
          var ret := MtdWrite(b, ofs, buf[..bs]);
          if ret != 0 {
            skipOfs := skipOfs + bs;
          } else {
            buf := buf[bs..];
            blocks := blocks - 1;
            retlen := retlen + bs;
          }
        }
        ofs := ofs + bs;
        b := b + 1;
      }
      LeftNone(was.mem, skip, start, n, data, mem, b, buf, bs);
    }

    /** onenand_block_read: n blocks, passing over the bad ones and those that fail. */
    method BlockRead(from: nat, len: nat) returns (data: seq<byte>, retlen: nat)
      requires Valid() && from % bs == 0 && Enough(SkipR(), BlockOf(from, bs), BlockOf(len, bs))
      ensures data == Load(mem, SkipR(), BlockOf(from, bs), BlockOf(len, bs))
      ensures retlen == Span(BlockOf(len, bs), bs)
    {
      hide Load, Enough;
      var blocks: nat := BlockOf(len, bs);
      ghost var n: nat, skip := blocks, SkipR();
      ghost var start := BlockOf(from, bs);
      ghost var b: nat := start;
      var ofs := from;
      WholeBlocks(from, bs);
      data, retlen := [], 0;
      assert [] + Load(mem, skip, b, n) == Load(mem, skip, b, n);
      while blocks > 0
        invariant blocks <= n && ofs == b * bs && Enough(skip, b, blocks)
        invariant data + Load(mem, skip, b, blocks) == Load(mem, skip, start, n)
        invariant retlen == (n - blocks) * bs
        decreases |bad| - b
      {
        OneLoad(mem, skip, b, blocks, data);
        Times(b, 1, bs);
        Times(n - blocks, 1, bs);
        var block := BlockOf(ofs, bs);
        if !bad[block] && !failsRead[block] {
          data := data + mem[block];
          blocks := blocks - 1;
          retlen := retlen + bs;
        }
        ofs := ofs + bs;
        b := b + 1;
      }
      OneLoad(mem, skip, b, 0, data);
    }

    /** Back-to-back writes from t0. */
    method WriteAll(t0: nat, chunks: seq<seq<byte>>) returns (ghost cs: seq<Chip>)
      requires Valid() && t0 % bs == 0 && forall i :: 0 <= i < |chunks| ==> |chunks[i]| % bs == 0
      requires Enough(SkipW(), BlockOf(Start(State(), t0), bs), BlockOf(|Concat(chunks)|, bs))
      modifies this
      ensures Valid() && Session(cs, SkipW(), t0, chunks, bs)
      ensures cs[0] == old(State()) && cs[|chunks|] == State()
    {
      hide Enough, CanWrite, Write, Concat, Start, BlockOf;
      cs := [State()];
      var to := t0;
      var i := 0;
      NoChunks(chunks);
      while i < |chunks|
        invariant i <= |chunks| && Valid() && to == t0 + |Concat(chunks[..i])|
        invariant Session(cs, SkipW(), t0, chunks[..i], bs)
        invariant cs[0] == old(State()) && cs[i] == State()
      {
        NextFits(cs, SkipW(), t0, chunks, bs, i);
        OneMoreChunk(cs, State(), SkipW(), t0, chunks, bs, i);
        var retlen := BlockWrite(to, chunks[i]);
        cs := cs + [State()];
        to := to + |chunks[i]|;
        i := i + 1;
      }
      assert chunks[..i] == chunks;
    }

    /** A session and one read of the total length: the same bytes, when reading passes over the
        blocks that were not written and no others. */
    method WriteAndRead(t0: nat, chunks: seq<seq<byte>>) returns (data: seq<byte>)
      requires Valid() && t0 % bs == 0 && forall i :: 0 <= i < |chunks| ==> |chunks[i]| % bs == 0
      requires Enough(SkipW(), BlockOf(Start(State(), t0), bs), BlockOf(|Concat(chunks)|, bs))
      requires Enough(SkipR(), BlockOf(t0, bs), BlockOf(|Concat(chunks)|, bs)) && chunks != []
      modifies this
      ensures var n := BlockOf(|Concat(chunks)|, bs);
              Matched(SkipW(), SkipR(), BlockOf(t0, bs), BlockOf(old(Start(State(), t0)), bs), n) ==>
                data == Concat(chunks)
    {
      hide Enough, Session, Concat, Start, BlockOf, Load, Matched;
      var cs := WriteAll(t0, chunks);
      var retlen;
      data, retlen := BlockRead(t0, |Concat(chunks)|);
      ReadsBack(cs, SkipW(), SkipR(), t0, chunks, bs);
    }
  }

  lemma NoChunks(chunks: seq<seq<byte>>)
    ensures Concat(chunks[..0]) == []
  {
  }

  lemma {:induction false} ConcatGrows(chunks: seq<seq<byte>>, i: nat)
    requires i <= |chunks|
    ensures |Concat(chunks[..i])| <= |Concat(chunks)|
    decreases |chunks|
  {
    if i < |chunks| {
      assert chunks[..|chunks| - 1][..i] == chunks[..i];
      ConcatGrows(chunks[..|chunks| - 1], i);
    } else {
      assert chunks[..i] == chunks;
    }
  }

  lemma FloorAtLeast(x: nat, k: nat, bs: nat)
    requires bs > 0 && x >= k * bs
    ensures BlockOf(x, bs) >= k
  {
    if BlockOf(x, bs) < k { Times(BlockOf(x, bs) + 1, k - BlockOf(x, bs) - 1, bs); }
  }

  /** The next write of a session has room when all of it has. */
  lemma NextFits(cs: seq<Chip>, skip: seq<bool>, t0: nat, chunks: seq<seq<byte>>, bs: nat, i: nat)
    requires i < |chunks| && Session(cs, skip, t0, chunks[..i], bs) && |chunks[i]| % bs == 0
    requires Enough(skip, BlockOf(Start(cs[0], t0), bs), BlockOf(|Concat(chunks)|, bs))
    requires OkChip(cs[i], skip, bs)
    ensures CanWrite(cs[i], skip, t0 + |Concat(chunks[..i])|, chunks[i], bs)
  {
    hide Enough, After, Concat, BlockOf, Start, Written, Follows;
    ConcatGrows(chunks, i + 1);
    LastChunk(chunks, i);
    NoChunks(chunks);
    var done := Concat(chunks[..i]);
    var s, n, m := BlockOf(Start(cs[0], t0), bs), BlockOf(|done|, bs), BlockOf(|chunks[i]|, bs);
    Times(0, 0, bs);
    if i > 0 {
      assert chunks[..i][..i] == chunks[..i];
      SessionWrites(cs, skip, t0, chunks[..i], bs, i);
    }
    SessionEnds(cs[0], cs[i], skip, t0, done, i, bs);
    WholeBlocks(|chunks[i]|, bs);
    Times(n, m, bs);
    FloorAtLeast(|Concat(chunks)|, n + m, bs);
    EnoughSplit(skip, s, n + m, BlockOf(|Concat(chunks)|, bs) - n - m);
    EnoughSplit(skip, s, n, m);
  }

  /** Where the next write of a session starts. */
  lemma SessionEnds(c0: Chip, c: Chip, skip: seq<bool>, t0: nat, done: seq<byte>, i: nat, bs: nat)
    requires bs > 0 && t0 % bs == 0
    requires i == 0 ==> c == c0 && done == []
    requires i > 0 ==> Written(c0, c, skip, BlockOf(t0, bs), BlockOf(Start(c0, t0), bs), BlockOf(|done|, bs), done, bs)
    ensures |done| == BlockOf(|done|, bs) * bs && (t0 + |done|) % bs == 0
    ensures Enough(skip, BlockOf(Start(c0, t0), bs), BlockOf(|done|, bs)) ==>
              BlockOf(Start(c, t0 + |done|), bs) == After'(skip, BlockOf(Start(c0, t0), bs), BlockOf(|done|, bs))
  {
    hide Enough, After, Store;
    var t, s, n := BlockOf(t0, bs), BlockOf(Start(c0, t0), bs), BlockOf(|done|, bs);
    WholeBlocks(t0, bs);
    Times(t, n, bs);
    Times(t + n, 0, bs);
    AfterZero(skip, s);
    if i > 0 {
      AfterTotal(skip, s, n);
      var e := After(skip, s, n);
      Times(t + n, e - t - n, bs);
      Times(e, 0, bs);
    }
  }

  lemma AfterZero(skip: seq<bool>, s: nat)
    ensures Enough(skip, s, 0) && After'(skip, s, 0) == s
  {
  }

  lemma LastChunk(chunks: seq<seq<byte>>, i: nat)
    requires i < |chunks|
    ensures Concat(chunks[..i + 1]) == Concat(chunks[..i]) + chunks[i]
  {
    assert chunks[..i + 1][..i] == chunks[..i];
  }

  lemma OneMoreChunk(cs: seq<Chip>, c: Chip, skip: seq<bool>, t0: nat, chunks: seq<seq<byte>>, bs: nat, i: nat)
    requires i < |chunks| && Session(cs, skip, t0, chunks[..i], bs) && |chunks[i]| % bs == 0 && c == cs[i]
    requires CanWrite(c, skip, t0 + |Concat(chunks[..i])|, chunks[i], bs)
    ensures Session(cs + [Write(c, skip, t0 + |Concat(chunks[..i])|, chunks[i], bs)], skip, t0, chunks[..i + 1], bs)
    ensures Concat(chunks[..i + 1]) == Concat(chunks[..i]) + chunks[i]
  {
    hide CanWrite, Write, Concat;
    LastChunk(chunks, i);
    var more := cs + [Write(c, skip, t0 + |Concat(chunks[..i])|, chunks[i], bs)];
    forall j | 0 <= j < i + 1
      ensures Follows(more[j], more[j + 1], skip, t0 + |Concat(chunks[..i + 1][..j])|, chunks[..i + 1][j], bs)
    {
      assert chunks[..i + 1][..j] == chunks[..j] && (j < i ==> chunks[..i][..j] == chunks[..j]);
      if j < i { assert Follows(cs[j], cs[j + 1], skip, t0 + |Concat(chunks[..i][..j])|, chunks[..i][j], bs); }
    }
  }

  lemma WriteIs(c: Chip, skip: seq<bool>, to: nat, data: seq<byte>, bs: nat)
    requires CanWrite(c, skip, to, data, bs)
    ensures var b, n := BlockOf(Start(c, to), bs), BlockOf(|data|, bs);
            && Enough(skip, b, n) && |data| >= n * bs
            && Write(c, skip, to, data, bs)
            == Chip(to + |data|,
                    (if to == c.nextOfs then c.skipOfs else 0) + Span(After(skip, b, n) - b - n, bs),
                    Store(c.mem, skip, b, n, data, bs))
    ensures to % bs == 0
  {
    WholeBlocks(|data|, bs);
  }

  lemma StartAligned(c: Chip, to: nat, bs: nat)
    requires bs > 0 && to % bs == 0 && c.skipOfs % bs == 0
    ensures Start(c, to) == Span(BlockOf(Start(c, to), bs), bs)
  {
    WholeBlocks(to, bs);
    WholeBlocks(c.skipOfs, bs);
    var t, k := BlockOf(to, bs), BlockOf(c.skipOfs, bs);
    Times(t, k, bs);
    Times(t + k, 0, bs);
  }

  lemma OneMore(x: nat, bs: nat)
    requires bs > 0 && x % bs == 0
    ensures (x + bs) % bs == 0
  {
    WholeBlocks(x, bs);
    Times(BlockOf(x, bs), 1, bs);
    Times(BlockOf(x, bs) + 1, 0, bs);
  }

  lemma SpanZero(bs: nat)
    ensures Span(0, bs) == 0
  {
  }

  lemma SpanNext(k: nat, bs: nat)
    requires bs > 0
    ensures Span(k + 1, bs) == Span(k, bs) + bs && BlockOf(Span(k, bs), bs) == k
  {
    Times(k, 1, bs);
  }

  /** What is left to write from block b on completes the whole. */
  ghost predicate Left(before: Blocks, skip: seq<bool>, start: nat, n: nat, data: seq<byte>, mem: Blocks, b: nat,
                       blocks: nat, buf: seq<byte>, bs: nat)
  {
    && bs > 0 && |before| == |skip| == |mem| && Enough(skip, start, n) && Enough(skip, b, blocks)
    && |data| >= n * bs && |buf| >= blocks * bs
    && After(skip, b, blocks) == After(skip, start, n)
    && Store(mem, skip, b, blocks, buf, bs) == Store(before, skip, start, n, data, bs)
  }

  lemma LeftAll(mem: Blocks, skip: seq<bool>, start: nat, n: nat, data: seq<byte>, bs: nat)
    requires bs > 0 && |mem| == |skip| && Enough(skip, start, n) && |data| >= n * bs
    ensures Left(mem, skip, start, n, data, mem, start, n, data, bs)
  {
  }

  /** One turn of the write loop. */
  lemma LeftOne(before: Blocks, skip: seq<bool>, start: nat, n: nat, data: seq<byte>, mem: Blocks, b: nat, blocks: nat,
                buf: seq<byte>, bs: nat)
    requires blocks > 0 && Left(before, skip, start, n, data, mem, b, blocks, buf, bs)
    ensures b < |skip| == |mem| && |buf| >= bs
    ensures skip[b] ==> Left(before, skip, start, n, data, mem, b + 1, blocks, buf, bs)
    ensures !skip[b] ==> Left(before, skip, start, n, data, mem[b := buf[..bs]], b + 1, blocks - 1, buf[bs..], bs)
  {
    OneLess(blocks, bs);
  }

  lemma LeftNone(before: Blocks, skip: seq<bool>, start: nat, n: nat, data: seq<byte>, mem: Blocks, b: nat,
                 buf: seq<byte>, bs: nat)
    requires Left(before, skip, start, n, data, mem, b, 0, buf, bs)
    ensures Enough(skip, start, n) && b == After(skip, start, n) && |data| >= n * bs
    ensures mem == Store(before, skip, start, n, data, bs)
  {
  }

  lemma OneLoad(mem: Blocks, skip: seq<bool>, b: nat, n: nat, data: seq<byte>)
    requires |mem| == |skip| && Enough(skip, b, n)
    ensures n == 0 ==> data + Load(mem, skip, b, n) == data
    ensures n > 0 ==> b < |skip|
    ensures n > 0 && skip[b] ==>
              Enough(skip, b + 1, n) && data + Load(mem, skip, b, n) == data + Load(mem, skip, b + 1, n)
    ensures n > 0 && !skip[b] ==>
              Enough(skip, b + 1, n - 1) && data + Load(mem, skip, b, n)
                 == data + mem[b] + Load(mem, skip, b + 1, n - 1)
  {
  }
}

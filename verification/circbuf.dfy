/** The circular buffer of circbuf.c: a bounded queue whose pushes overwrite the oldest
    characters. Pointers are positions in the data array. */
module CircBuf {
  import opened Rings

  class Buffer {
    const totalsize: nat
    const data: array<char>
    var top: nat
    var tail: nat
    var size: nat

    ghost predicate Valid()
      reads `top, `tail, `size
    {
      && totalsize > 0 && data.Length == totalsize
      && size <= totalsize && top < totalsize && tail == Slot(top + size, totalsize)
    }

    ghost function Content(): (r: string)
      requires data.Length > 0
      reads data, `top, `size
      ensures |r| == size
    {
      Ring(data[..], top, size)
    }

    /** buf_init */
    constructor (size: nat)
      requires size > 0
      ensures Valid() && totalsize == size && Content() == "" && fresh(data)
    {
      totalsize := size;
      this.size := 0;
      data := new char[size](_ => '\0');
      top, tail := 0, 0;
      new;
      SlotSmall(0, size);
    }

    /** buf_push: the last totalsize characters of what was there and what is pushed. */
    method Push(src: string) returns (n: nat)
      requires Valid()
      modifies data, `top, `tail, `size
      ensures Valid() && n == |src|
      ensures Content() == Last(old(Content()) + src, totalsize)
    {
      hide Slot, Ring, Last;
      ghost var c0 := Content();
      LastNone(c0, totalsize);
      var i, p := 0, tail;
      while i < |src|
        invariant i <= |src| && p < totalsize
        invariant size <= totalsize && top < totalsize && p == Slot(top + size, totalsize)
        invariant Content() == Last(c0 + src[..i], totalsize)
      {
        RingPush(data[..], top, size, src[i]);
        LastMore(c0, src[..i], src[i], totalsize);
        assert src[..i + 1] == src[..i] + [src[i]];
        SlotNext(top + size, totalsize);
        SlotNext(top, totalsize);
        SlotSmall(top, totalsize);
        ghost var l := data[..];
        data[p] := src[i];
        assert data[..] == l[p := src[i]];
        p := p + 1;
        if p == totalsize { p := 0; }
        if size < totalsize {
          size := size + 1;
        } else {
          ghost var t := top + 1;
          top := top + 1;
          if top == totalsize { top := 0; }
          SlotTurn(totalsize, t);
          SlotSmall(top, totalsize);
          RingStart(data[..], t, top, size);
          SameSlot(totalsize, t, top, size);
          assert t + size == (t - 1 + size) + 1;
        }
        i := i + 1;
      }
      assert src[..i] == src;
      tail := p;
      n := i;
    }

    /** buf_pop: the oldest characters, as many as asked for or all there are. */
    method Pop(len: nat) returns (dest: string)
      requires Valid()
      modifies `top, `size
      ensures Valid()
      ensures |dest| == (if len > old(size) then old(size) else len)
      ensures old(Content()) == dest + Content()
    {
      hide Slot, Ring;
      ghost var c0 := Content();
      var n := if len > size then size else len;
      dest := "";
      var i, p := 0, top;
      SlotSmall(top, totalsize);
      while i < n
        invariant i <= n <= size && p < totalsize && p == Slot(top + i, totalsize)
        invariant |dest| == i && dest == c0[..i]
        invariant top == old(top) && size == old(size)
      {
        RingAt(data[..], top, size, i);
        SlotNext(top + i, totalsize);
        assert c0[..i + 1] == c0[..i] + [c0[i]];
        dest := dest + [data[p]];
        p := p + 1;
        if p == totalsize { p := 0; }
        i := i + 1;
      }
      ghost var t := top;
      RingDrop(data[..], t, size, n);
      SlotSmall(p, totalsize);
      RingStart(data[..], t + n, p, size - n);
      SameSlot(totalsize, t + n, p, size - n);
      assert t + n + (size - n) == t + size;
      top := p;
      size := size - n;
    }
  }

  lemma SlotSmall(a: nat, len: nat)
    requires a < len
    ensures Slot(a, len) == a
  {
  }

  /** One step forward, back to the front at the end. */
  lemma SlotNext(a: nat, len: nat)
    requires len > 0
    ensures Slot(a + 1, len) == if Slot(a, len) + 1 == len then 0 else Slot(a, len) + 1
  {
    hide Slot;
    var s := Slot(a, len);
    SlotAdd(len, a, 1);
    if s + 1 < len {
      SlotSmall(s + 1, len);
    } else {
      SlotTurn(len, 0);
      SlotSmall(0, len);
    }
  }

  lemma RingDrop(l: string, start: nat, count: nat, n: nat)
    requires l != "" && n <= count
    ensures |Ring(l, start, count)| == count
    ensures Ring(l, start, count) == Ring(l, start, count)[..n] + Ring(l, start + n, count - n)
  {
    hide Slot;
    var a, b := Ring(l, start, count), Ring(l, start + n, count - n);
    forall i | n <= i < count ensures a[i] == b[i - n] {
      assert start + n + (i - n) == start + i;
    }
    assert a == a[..n] + b;
  }
}

/** Rings of characters that overwrite their oldest ones, and what is left of a stream. */
module Rings {
  import opened Numbers

  /** The place of position a in a ring: `a & LOGBUFF_MASK` for a length that is a power of 2. */
  function Slot(a: nat, len: nat): (r: nat)
    requires len > 0
    ensures r < len
  {
    a % len
  }

  /** What a ring of |l| characters holds: `count` of them from position `start` on. */
  function Ring(l: string, start: nat, count: nat): string
    requires l != ""
  {
    seq(count, i requires 0 <= i < count => l[Slot(start + i, |l|)])
  }

  lemma SlotsApart(len: nat, a: nat, i: nat, j: nat)
    requires len > 0 && i < j < i + len
    ensures Slot(a + i, len) != Slot(a + j, len)
  {
    if Slot(a + i, len) == Slot(a + j, len) { SameMod(a + i, a + j, len); }
  }

  lemma SlotTurn(len: nat, a: nat)
    requires len > 0
    ensures Slot(a + len, len) == Slot(a, len)
  {
    ModShift(a, len, 1);
  }

  lemma RingSize(l: string, start: nat, count: nat)
    requires l != ""
    ensures |Ring(l, start, count)| == count
  {
  }

  lemma RingAt(l: string, start: nat, count: nat, i: nat)
    requires l != "" && i < count
    ensures |Ring(l, start, count)| == count && Ring(l, start, count)[i] == l[Slot(start + i, |l|)]
  {
  }

  /** One character written behind the others pushes out the oldest of a full ring. */
  lemma RingPush(l: string, start: nat, count: nat, c: char)
    requires l != "" && count <= |l|
    ensures var l' := l[Slot(start + count, |l|) := c];
            && (count < |l| ==> Ring(l', start, count + 1) == Last(Ring(l, start, count) + [c], |l|))
            && (count == |l| ==> Ring(l', start + 1, count) == Last(Ring(l, start, count) + [c], |l|))
  {
    hide Slot, Ring;
    var len := |l|;
    var l' := l[Slot(start + count, len) := c];
    var was := Ring(l, start, count);
    RingSize(l, start, count);
    RingSize(l', start, count + 1);
    RingSize(l', start + 1, count);
    if count < len {
      var now := Ring(l', start, count + 1);
      forall i | 0 <= i < count + 1 ensures now[i] == (was + [c])[i] {
        RingAt(l', start, count + 1, i);
        if i < count {
          RingAt(l, start, count, i);
          SlotsApart(len, start, i, count);
        }
      }
      assert now == was + [c];
    } else {
      var now := Ring(l', start + 1, count);
      forall i | 0 <= i < count ensures now[i] == (was[1..] + [c])[i] {
        RingAt(l', start + 1, count, i);
        if i < count - 1 {
          RingAt(l, start, count, i + 1);
          SlotsApart(len, start, i + 1, count);
          assert start + 1 + i == start + (i + 1);
        } else {
          assert start + 1 + i == start + count;
        }
      }
      assert now == was[1..] + [c];
      assert (was + [c])[1..] == was[1..] + [c];
    }
  }

  lemma RingStart(l: string, start: nat, start': nat, count: nat)
    requires l != "" && Slot(start, |l|) == Slot(start', |l|)
    ensures Ring(l, start, count) == Ring(l, start', count)
  {
    hide Slot, Ring;
    var a, b := Ring(l, start, count), Ring(l, start', count);
    RingSize(l, start, count);
    RingSize(l, start', count);
    forall i | 0 <= i < count ensures a[i] == b[i] {
      SameSlot(|l|, start, start', i);
      RingAt(l, start, count, i);
      RingAt(l, start', count, i);
    }
    assert a == b;
  }

  lemma SameSlot(len: nat, a: nat, b: nat, i: nat)
    requires len > 0 && Slot(a, len) == Slot(b, len)
    ensures Slot(a + i, len) == Slot(b + i, len)
  {
    SlotAdd(len, a, i);
    SlotAdd(len, b, i);
  }

  lemma SlotAdd(len: nat, a: nat, i: nat)
    requires len > 0
    ensures Slot(a + i, len) == Slot(Slot(a, len) + i, len)
  {
    ModShift(a % len + i, len, a / len);
    assert a + i == (a % len + i) + a / len * len;
  }

  // ---- the last characters ----

  function Last(s: string, len: nat): string { if |s| <= len then s else s[|s| - len..] }

  lemma LastAppend(a: string, b: string, len: nat)
    ensures Last(Last(a, len) + b, len) == Last(a + b, len)
  {
    if |a| > len {
      assert a + b == a[..|a| - len] + (Last(a, len) + b);
    }
  }

  lemma LastNone(s: string, len: nat)
    requires |s| <= len
    ensures Last(s + "", len) == s
  {
    assert s + "" == s;
  }

  lemma LastMore(c0: string, added: string, c: char, len: nat)
    ensures Last(Last(c0 + added, len) + [c], len) == Last(c0 + (added + [c]), len)
  {
    LastAppend(c0 + added, [c], len);
    assert c0 + added + [c] == c0 + (added + [c]);
  }
}

/** Partition lists: sorted insertion and removal on values. */
module MtdLists {
  import opened MtdTypes
  import opened Options

  predicate Sorted(ps: seq<Part>) {
    forall i, j :: 0 <= i < j < |ps| ==> ps[i].offset <= ps[j].offset
  }

  predicate StrictlySorted(ps: seq<Part>) {
    forall i, j :: 0 <= i < j < |ps| ==> ps[i].offset < ps[j].offset
  }

  /** Where part_sort_add puts an offset: before the first one that is not smaller. */
  function InsertPos(ps: seq<Part>, offset: u32): (k: nat)
    ensures k <= |ps|
    ensures forall i :: 0 <= i < k ==> ps[i].offset < offset
    ensures k < |ps| ==> offset <= ps[k].offset
  {
    if ps == [] || offset <= ps[0].offset then 0 else 1 + InsertPos(ps[1..], offset)
  }

  lemma InsertPosIs(ps: seq<Part>, offset: u32, k: nat)
    requires k <= |ps| && (forall i :: 0 <= i < k ==> ps[i].offset < offset)
    requires k < |ps| ==> offset <= ps[k].offset
    ensures InsertPos(ps, offset) == k
  {
  }

  function InsertAt(ps: seq<Part>, k: nat, p: Part): seq<Part>
    requires k <= |ps|
  {
    ps[..k] + [p] + ps[k..]
  }

  /** part_sort_add on a list: refused only for a second partition at offset 0. */
  function InsertSorted(ps: seq<Part>, p: Part): Option<seq<Part>> {
    if p.offset == 0 && ps != [] && ps[0].offset == 0 then None
    else Some(InsertAt(ps, InsertPos(ps, p.offset), p))
  }

  function InsertAll(ps: seq<Part>, more: seq<Part>): Option<seq<Part>>
    decreases |more|
  {
    if more == [] then Some(ps)
    else
      var r := InsertSorted(ps, more[0]);
      if r.None? then None else InsertAll(r.value, more[1..])
  }

  /** A partition behind all others is appended. */
  lemma {:induction false} InsertBehind(ps: seq<Part>, p: Part)
    requires forall i :: 0 <= i < |ps| ==> ps[i].offset < p.offset
    ensures InsertSorted(ps, p) == Some(ps + [p])
  {
    assert InsertAt(ps, InsertPos(ps, p.offset), p) == ps + [p];
  }

  lemma {:induction false} InsertAllBehind(ps: seq<Part>, more: seq<Part>)
    requires StrictlySorted(ps + more)
    ensures InsertAll(ps, more) == Some(ps + more)
    decreases |more|
  {
    if more == [] {
      assert ps + more == ps;
    } else {
      forall i | 0 <= i < |ps| ensures ps[i].offset < more[0].offset {
        assert (ps + more)[i] == ps[i] && (ps + more)[|ps|] == more[0];
      }
      InsertBehind(ps, more[0]);
      assert ps + [more[0]] + more[1..] == ps + more;
      InsertAllBehind(ps + [more[0]], more[1..]);
    }
  }

  lemma {:induction false} InsertAllBeyond(ps: seq<Part>, more: seq<Part>)
    requires forall i :: 0 <= i < |more| ==> more[i].offset > 0
    ensures InsertAll(ps, more).Some?
    decreases |more|
  {
    if more != [] { InsertAllBeyond(InsertSorted(ps, more[0]).value, more[1..]); }
  }

  /** A list that is in order is never refused. */
  lemma SortedAccepted(ps: seq<Part>)
    requires Sorted(ps) && OneAtZero(ps)
    ensures InsertAll([], ps).Some?
  {
    if ps != [] {
      var tail := ps[1..];
      forall i | 0 <= i < |tail| ensures tail[i].offset > 0 {
        assert tail[i] == ps[i + 1] && ps[0].offset <= ps[i + 1].offset;
      }
      InsertAllBeyond(InsertSorted([], ps[0]).value, tail);
    }
  }

  /** Offset 0 is taken at most once. */
  predicate OneAtZero(ps: seq<Part>) {
    forall i, j :: 0 <= i < j < |ps| ==> ps[i].offset != 0 || ps[j].offset != 0
  }

  function RemoveAt(ps: seq<Part>, k: nat): seq<Part>
    requires k < |ps|
  {
    ps[..k] + ps[k + 1..]
  }

  /** An accepted insertion keeps the list sorted, with one partition at 0 at most, and adds nothing else. */
  lemma InsertKeeps(ps: seq<Part>, p: Part)
    requires Sorted(ps) && OneAtZero(ps) && InsertSorted(ps, p).Some?
    ensures var r := InsertSorted(ps, p).value;
            Sorted(r) && OneAtZero(r) && multiset(r) == multiset(ps) + multiset{p}
  {
    hide Sorted, OneAtZero, InsertPos;
    var k, r := InsertPos(ps, p.offset), InsertSorted(ps, p).value;
    InsertedAt(ps, k, p);
    InsertedSorted(ps, k, p, r);
    InsertedZero(ps, k, p, r);
  }

  ghost predicate Inserted(ps: seq<Part>, k: nat, p: Part, r: seq<Part>) {
    && k <= |ps| && |r| == |ps| + 1 && r[k] == p
    && (forall i :: 0 <= i < k ==> r[i] == ps[i])
    && (forall i :: k < i < |r| ==> r[i] == ps[i - 1])
  }

  lemma InsertedAt(ps: seq<Part>, k: nat, p: Part)
    requires k <= |ps|
    ensures Inserted(ps, k, p, InsertAt(ps, k, p))
    ensures multiset(InsertAt(ps, k, p)) == multiset(ps) + multiset{p}
  {
    assert ps == ps[..k] + ps[k..];
  }

  lemma InsertedSorted(ps: seq<Part>, k: nat, p: Part, r: seq<Part>)
    requires Sorted(ps) && k == InsertPos(ps, p.offset) && Inserted(ps, k, p, r)
    ensures Sorted(r)
  {
    forall i, j | 0 <= i < j < |r| ensures r[i].offset <= r[j].offset {
      if j < k {
        assert r[i] == ps[i] && r[j] == ps[j];
      } else if j == k {
        assert r[i] == ps[i];
      } else if i < k {
        assert r[i] == ps[i] && r[j] == ps[j - 1];
      } else if i == k {
        assert r[j] == ps[j - 1] && p.offset <= ps[k].offset <= ps[j - 1].offset;
      } else {
        assert r[i] == ps[i - 1] && r[j] == ps[j - 1];
      }
    }
  }

  lemma InsertedZero(ps: seq<Part>, k: nat, p: Part, r: seq<Part>)
    requires Sorted(ps) && OneAtZero(ps) && k == InsertPos(ps, p.offset) && Inserted(ps, k, p, r)
    requires p.offset == 0 ==> ps == [] || ps[0].offset != 0
    ensures OneAtZero(r)
  {
    forall i, j | 0 <= i < j < |r| ensures r[i].offset != 0 || r[j].offset != 0 {
      if i == k || j == k {
        if p.offset == 0 {
          assert k == 0 && r[j] == ps[j - 1] && ps[0].offset <= ps[j - 1].offset;
        }
      } else {
        assert r[i] == ps[if i < k then i else i - 1] && r[j] == ps[if j < k then j else j - 1];
      }
    }
  }

  lemma {:induction false} InsertAllKeeps(ps: seq<Part>, more: seq<Part>)
    requires Sorted(ps) && OneAtZero(ps) && InsertAll(ps, more).Some?
    ensures var r := InsertAll(ps, more).value;
            Sorted(r) && OneAtZero(r) && multiset(r) == multiset(ps) + multiset(more)
    decreases |more|
  {
    hide Sorted, OneAtZero, InsertSorted;
    if more != [] {
      InsertKeeps(ps, more[0]);
      InsertAllKeeps(InsertSorted(ps, more[0]).value, more[1..]);
      assert more == [more[0]] + more[1..];
    }
  }

  lemma RemoveKeeps(ps: seq<Part>, k: nat)
    requires Sorted(ps) && OneAtZero(ps) && k < |ps|
    ensures Sorted(RemoveAt(ps, k)) && OneAtZero(RemoveAt(ps, k))
    ensures StrictlySorted(ps) ==> StrictlySorted(RemoveAt(ps, k))
    ensures forall p :: p in RemoveAt(ps, k) ==> p in ps
  {
    var r := RemoveAt(ps, k);
    assert forall i :: 0 <= i < |r| ==> r[i] == if i < k then ps[i] else ps[i + 1];
  }

  // ---- where the current partition goes ----

  /** part_sort_add's adjustment of the current number. */
  predicate Shifts(ps: seq<Part>, k: nat, cur: nat)
    requires cur < |ps|
  {
    k < |ps| && ps[k].offset <= ps[cur].offset
  }

  /** Inserting moves the number exactly when the partition moves, ties included. */
  lemma InsertIdentity(ps: seq<Part>, p: Part, cur: nat)
    requires Sorted(ps) && InsertSorted(ps, p).Some? && cur < |ps|
    ensures var k, r := InsertPos(ps, p.offset), InsertSorted(ps, p).value;
            var cur' := if Shifts(ps, k, cur) then cur + 1 else cur;
            cur' < |r| && r[cur'] == ps[cur] && (Shifts(ps, k, cur) <==> k <= cur)
  {
    var k := InsertPos(ps, p.offset);
    if k < |ps| && cur < k {
      assert ps[cur].offset < p.offset <= ps[k].offset;
    }
  }

  /** Where ps[cur] stands once entry k is gone. */
  function AfterRemoval(k: nat, cur: nat): nat
    requires k != cur
  {
    if k < cur then cur - 1 else cur
  }

  /** part_del compares offsets instead of positions, which is right exactly when the
      deleted partition does not stand behind the current one at the same offset. */
  lemma RemoveIdentity(ps: seq<Part>, k: nat, cur: nat)
    requires Sorted(ps) && k < |ps| && cur < |ps| && k != cur
    ensures AfterRemoval(k, cur) < |RemoveAt(ps, k)| && RemoveAt(ps, k)[AfterRemoval(k, cur)] == ps[cur]
    ensures (if ps[k].offset <= ps[cur].offset then cur - 1 else cur) == AfterRemoval(k, cur)
            <==> !(k > cur && ps[k].offset == ps[cur].offset)
  {
  }

  // ---- partitions at one offset come back in the opposite order ----

  /** Three partitions, two of them at one offset: when the last is deleted, the number goes from
      the second to the first, which is another partition; and from the first of two to 255. */
  lemma RemoveMiscounts()
    ensures var a, b, c := Part(4096, 0, "a", false, false), Part(4096, 4096, "b", false, false),
                          Part(4096, 4096, "c", false, false);
            && Sorted([a, b, c]) && c.offset <= b.offset
            && AfterRemoval(2, 1) == 1 && RemoveAt([a, b, c], 2)[1] == b && RemoveAt([a, b, c], 2)[1 - 1] == a
            && Sorted([b, c]) && AfterRemoval(1, 0) == 0 && (0 + 255) % 256 == 255 >= |RemoveAt([b, c], 1)|
  {
  }

  lemma {:induction false} InsertAllSplit(acc: seq<Part>, a: seq<Part>, b: seq<Part>)
    ensures InsertAll(acc, a + b) ==
            if InsertAll(acc, a).None? then None else InsertAll(InsertAll(acc, a).value, b)
    decreases |a|
  {
    hide InsertSorted;
    if a == [] {
      assert a + b == b;
    } else {
      assert (a + b)[0] == a[0] && (a + b)[1..] == a[1..] + b;
      if InsertSorted(acc, a[0]).Some? {
        InsertAllSplit(InsertSorted(acc, a[0]).value, a[1..], b);
      }
    }
  }

  /** Later insertions never swap what is already there. */
  lemma {:induction false} OrderKept(acc: seq<Part>, more: seq<Part>, i: nat, j: nat) returns (i': nat, j': nat)
    requires i < j < |acc| && InsertAll(acc, more).Some?
    ensures var r := InsertAll(acc, more).value;
            i' < j' < |r| && r[i'] == acc[i] && r[j'] == acc[j]
    decreases |more|
  {
    if more == [] {
      return i, j;
    }
    var k := InsertPos(acc, more[0].offset);
    i', j' := OrderKept(InsertSorted(acc, more[0]).value, more[1..],
                        if i < k then i else i + 1, if j < k then j else j + 1);
  }

  /** Of two neighbours at one offset the second is put in front of the first. */
  lemma TieSwaps(ps: seq<Part>, t: nat) returns (i: nat, j: nat)
    requires t + 1 < |ps| && ps[t].offset == ps[t + 1].offset && InsertAll([], ps).Some?
    ensures var r := InsertAll([], ps).value;
            i < j < |r| && r[i] == ps[t + 1] && r[j] == ps[t]
  {
    var front, x, y, back := ps[..t], ps[t], ps[t + 1], ps[t + 2..];
    assert ps == front + ([x] + ([y] + back));
    InsertAllSplit([], front, [x] + ([y] + back));
    var acc0 := InsertAll([], front).value;
    assert ([x] + ([y] + back))[1..] == [y] + back;
    var acc1 := InsertSorted(acc0, x).value;
    var ix := InsertPos(acc0, x.offset);
    assert acc1[ix] == x;
    assert ([y] + back)[1..] == back;
    var acc2 := InsertSorted(acc1, y).value;
    var k := InsertPos(acc1, y.offset);
    assert k <= ix;
    assert acc2[k] == y && acc2[ix + 1] == x;
    i, j := OrderKept(acc2, back, k, ix + 1);
  }

  /** Inserting a sorted list of different partitions again gives the same list exactly
      when no two of them share an offset. */
  lemma SameOrderIffDistinct(ps: seq<Part>)
    requires Sorted(ps) && forall i, j :: 0 <= i < j < |ps| ==> ps[i] != ps[j]
    ensures InsertAll([], ps) == Some(ps) <==> StrictlySorted(ps)
  {
    if StrictlySorted(ps) {
      assert [] + ps == ps;
      InsertAllBehind([], ps);
    } else if InsertAll([], ps).Some? {
      var t := Neighbours(ps);
      var i, j := TieSwaps(ps, t);
    }
  }

  lemma Neighbours(ps: seq<Part>) returns (t: nat)
    requires Sorted(ps) && !StrictlySorted(ps)
    ensures t + 1 < |ps| && ps[t].offset == ps[t + 1].offset
  {
    var i, j :| 0 <= i < j < |ps| && ps[i].offset >= ps[j].offset;
    assert ps[i].offset <= ps[i + 1].offset <= ps[j].offset;
    t := i;
  }
}

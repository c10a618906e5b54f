/** The environment as a value: entries, the bytes that store them, and the
    map from names to values that they mean. */
module EnvImage {

  const NUL: char := '\0'

  datatype Entry = Entry(name: string, value: string)

  predicate IsName(s: string) { NUL !in s && '=' !in s }

  predicate IsEntry(e: Entry) { IsName(e.name) && NUL !in e.value }

  function Text(e: Entry): string { e.name + ['='] + e.value }

  /** All entries, each followed by its own NUL. */
  function Flat(es: seq<Entry>): string {
    if es == [] then [] else Text(es[0]) + [NUL] + Flat(es[1..])
  }

  /** The stored form: it always ends in two NULs, also when it is empty. */
  function Image(es: seq<Entry>): string {
    if es == [] then [NUL, NUL] else Flat(es) + [NUL]
  }

  ghost predicate WellFormed(es: seq<Entry>) {
    && (forall e :: e in es ==> IsEntry(e))
    && (forall i, j :: 0 <= i < j < |es| ==> es[i].name != es[j].name)
  }

  function AsMap(es: seq<Entry>): map<string, string> {
    if es == [] then map[] else AsMap(es[1..])[es[0].name := es[0].value]
  }

  /** What a C string pointer into the buffer reads: everything up to the next NUL. */
  function UpToNul(s: string): string {
    if s == [] || s[0] == NUL then [] else [s[0]] + UpToNul(s[1..])
  }

  /** The part before the first '='; the whole string when it has none. */
  function KeyOf(s: string): string {
    if s == [] || s[0] == '=' then [] else [s[0]] + KeyOf(s[1..])
  }

  /** argv[2..] joined with single blanks, as the append loop writes them. */
  function Join(args: seq<string>): string {
    if args == [] then [] else if |args| == 1 then args[0] else args[0] + [' '] + Join(args[1..])
  }

  lemma {:induction false} KeyOfPrefix(s: string, j: nat)
    requires j <= |s| && '=' !in s[..j]
    ensures KeyOf(s) == s[..j] + KeyOf(s[j..])
  {
    if j > 0 {
      assert s[0] == s[..j][0];
      assert s[1..][..j - 1] == s[..j][1..];
      KeyOfPrefix(s[1..], j - 1);
      assert s[1..][j - 1..] == s[j..];
    }
  }

  // ---- positions of the entries in the image ----

  function Start(es: seq<Entry>, k: nat): nat
    requires k <= |es|
  {
    |Flat(es[..k])|
  }

  lemma {:induction false} FlatAppend(a: seq<Entry>, b: seq<Entry>)
    ensures Flat(a + b) == Flat(a) + Flat(b)
  {
    if a == [] {
      assert a + b == b;
    } else {
      var head := Text(a[0]) + [NUL];
      calc {
        Flat(a + b);
        { assert (a + b)[0] == a[0] && (a + b)[1..] == a[1..] + b; }
        head + Flat(a[1..] + b);
        { FlatAppend(a[1..], b); }
        head + (Flat(a[1..]) + Flat(b));
        (head + Flat(a[1..])) + Flat(b);
        Flat(a) + Flat(b);
      }
    }
  }

  lemma TextHasNoNul(e: Entry)
    requires IsEntry(e)
    ensures forall i :: 0 <= i < |Text(e)| ==> Text(e)[i] != NUL
  {
    forall i | 0 <= i < |Text(e)| ensures Text(e)[i] != NUL {
      if i < |e.name| {
        assert Text(e)[i] == e.name[i];
      } else if i > |e.name| {
        assert Text(e)[i] == e.value[i - |e.name| - 1];
      }
    }
  }

  lemma FlatOne(e: Entry)
    ensures Flat([e]) == Text(e) + [NUL]
  {
    assert [e][1..] == [];
  }

  lemma FlatUpTo(es: seq<Entry>, k: nat)
    requires k < |es|
    ensures Flat(es[..k + 1]) == Flat(es[..k]) + (Text(es[k]) + [NUL])
  {
    hide *;
    assert es[..k + 1] == es[..k] + [es[k]];
    FlatAppend(es[..k], [es[k]]);
    FlatOne(es[k]);
  }

  /** The image around entry k. */
  lemma SplitAt(es: seq<Entry>, k: nat)
    requires k < |es|
    ensures Flat(es) == Flat(es[..k]) + (Text(es[k]) + [NUL]) + Flat(es[k + 1..])
    ensures Start(es, k + 1) == Start(es, k) + |Text(es[k])| + 1
    ensures Start(es, k + 1) <= |Flat(es)|
  {
    hide *;
    var front, back := es[..k + 1], es[k + 1..];
    assert es == front + back;
    FlatAppend(front, back);
    FlatUpTo(es, k);
    StartIs(es, k);
    StartIs(es, k + 1);
  }

  lemma StartIs(es: seq<Entry>, k: nat)
    requires k <= |es|
    ensures Start(es, k) == |Flat(es[..k])|
  {
  }

  /** What the image holds at entry k: its text, and then a NUL. */
  lemma EntryIn(es: seq<Entry>, k: nat)
    requires k < |es| && IsEntry(es[k])
    ensures Start(es, k + 1) == Start(es, k) + |Text(es[k])| + 1 < |Image(es)|
    ensures forall p :: 0 <= p - Start(es, k) < |Text(es[k])| ==>
              Image(es)[p] == Text(es[k])[p - Start(es, k)] && Image(es)[p] != NUL
    ensures Image(es)[Start(es, k) + |Text(es[k])|] == NUL
  {
    hide Flat, Text, Start;
    SplitAt(es, k);
    TextHasNoNul(es[k]);
    StartIs(es, k);
    Middle(Flat(es[..k]), Text(es[k]), Flat(es[k + 1..]));
  }

  lemma Middle(a: string, t: string, c: string)
    ensures var s := a + (t + [NUL]) + c + [NUL];
            && |s| == |a| + |t| + 1 + |c| + 1 && s[|a| + |t|] == NUL
            && forall p :: 0 <= p - |a| < |t| ==> s[p] == t[p - |a|]
  {
  }

  /** The image before and behind entry k. */
  lemma AroundEntry(es: seq<Entry>, k: nat)
    requires k < |es|
    ensures Start(es, k) <= Start(es, k + 1) <= |Flat(es)| && |Image(es)| == |Flat(es)| + 1
    ensures Image(es)[..Start(es, k)] == Flat(es[..k])
    ensures Image(es)[Start(es, k + 1)..|Flat(es)|] == Flat(es[k + 1..])
  {
    SplitAt(es, k);
    hide Flat, Text;
  }

  /** No two NULs stand side by side before the end, so the first pair is the end. */
  lemma {:induction false} NoDoubleNul(es: seq<Entry>, t: nat)
    requires forall e :: e in es ==> IsEntry(e)
    requires t + 1 < |Flat(es)|
    ensures Flat(es)[t] != NUL || Flat(es)[t + 1] != NUL
  {
    var head := Text(es[0]) + [NUL];
    TextHasNoNul(es[0]);
    if t >= |head| {
      NoDoubleNul(es[1..], t - |head|);
    } else if t == |head| - 1 {
      assert Flat(es)[t + 1] == Flat(es[1..])[0];
      assert es[1] in es;
      TextHasNoNul(es[1]);
      assert Flat(es[1..])[0] == Text(es[1])[0];
    }
  }

  lemma FlatEndsInNul(es: seq<Entry>)
    requires es != []
    ensures |Flat(es)| > 1 && Flat(es)[|Flat(es)| - 1] == NUL
  {
    SplitAt(es, |es| - 1);
    assert es[|es| - 1 + 1..] == [];
  }

  /** The first pair of NULs is the last two characters. */
  lemma ImageEnd(es: seq<Entry>)
    requires forall e :: e in es ==> IsEntry(e)
    ensures |Image(es)| >= 2 && Image(es)[|Image(es)| - 1] == NUL && Image(es)[|Image(es)| - 2] == NUL
    ensures forall t :: 0 <= t < |Image(es)| - 2 ==> Image(es)[t] != NUL || Image(es)[t + 1] != NUL
  {
    if es != [] {
      FlatEndsInNul(es);
      forall t | 0 <= t < |Image(es)| - 2
        ensures Image(es)[t] != NUL || Image(es)[t + 1] != NUL
      {
        NoDoubleNul(es, t);
      }
    }
  }

  // ---- what the entries mean ----

  lemma {:induction false} AsMapKeys(es: seq<Entry>)
    ensures forall n :: n in AsMap(es) <==> exists k :: 0 <= k < |es| && es[k].name == n
  {
    if es != [] {
      AsMapKeys(es[1..]);
      forall n | n in AsMap(es)
        ensures exists k :: 0 <= k < |es| && es[k].name == n
      {
        if n == es[0].name {
        } else {
          assert n in AsMap(es[1..]);
          var tail := es[1..];
          var k :| 0 <= k < |tail| && tail[k].name == n;
          assert es[k + 1].name == n;
        }
      }
      forall k | 0 <= k < |es|
        ensures es[k].name in AsMap(es)
      {
        if k > 0 {
          assert es[1..][k - 1] == es[k];
        }
      }
    }
  }

  lemma {:induction false} AsMapAt(es: seq<Entry>, k: nat)
    requires WellFormed(es) && k < |es|
    ensures es[k].name in AsMap(es) && AsMap(es)[es[k].name] == es[k].value
  {
    if k > 0 {
      AsMapAt(es[1..], k - 1);
      assert es[1..][k - 1] == es[k];
    }
  }

  function RemoveAt(es: seq<Entry>, k: nat): seq<Entry>
    requires k < |es|
  {
    es[..k] + es[k + 1..]
  }

  lemma RemoveAtImage(es: seq<Entry>, k: nat)
    requires k < |es| && |es| > 1
    ensures Image(RemoveAt(es, k)) == Flat(es[..k]) + Flat(es[k + 1..]) + [NUL]
  {
    FlatAppend(es[..k], es[k + 1..]);
    hide Flat;
    assert |RemoveAt(es, k)| == |es| - 1;
  }

  lemma RemoveAtWellFormed(es: seq<Entry>, k: nat)
    requires WellFormed(es) && k < |es|
    ensures WellFormed(RemoveAt(es, k))
  {
    var r := RemoveAt(es, k);
    forall e | e in r ensures IsEntry(e) {
      assert e in es;
    }
  }

  lemma MinusUpdate(m: map<string, string>, gone: string, n: string, v: string)
    requires gone != n
    ensures (m - {gone})[n := v] == m[n := v] - {gone}
  {
  }

  /** Taking the entry away is taking its name out of the map. */
  lemma {:induction false} RemoveAtMap(es: seq<Entry>, k: nat)
    requires WellFormed(es) && k < |es|
    ensures AsMap(RemoveAt(es, k)) == AsMap(es) - {es[k].name}
  {
    hide AsMap, RemoveAt;
    var head, tail, gone := es[0], es[1..], es[k].name;
    MapCons(es);
    if k == 0 {
      RemoveFirst(es);
      AsMapKeys(tail);
      assert gone !in AsMap(tail);
    } else {
      assert head.name != gone && tail[k - 1] == es[k];
      RemoveAtMap(tail, k - 1);
      RemoveLater(es, k);
      MapCons(RemoveAt(es, k));
      MinusUpdate(AsMap(tail), gone, head.name, head.value);
    }
  }

  lemma MapCons(es: seq<Entry>)
    requires es != []
    ensures AsMap(es) == AsMap(es[1..])[es[0].name := es[0].value]
  {
  }

  lemma RemoveFirst(es: seq<Entry>)
    requires es != []
    ensures RemoveAt(es, 0) == es[1..]
  {
  }

  lemma RemoveLater(es: seq<Entry>, k: nat)
    requires 0 < k < |es|
    ensures RemoveAt(es, k) != [] && RemoveAt(es, k)[0] == es[0] && RemoveAt(es, k)[1..] == RemoveAt(es[1..], k - 1)
  {
  }

  /** The entries that do not carry the name n. */
  function Without(es: seq<Entry>, n: string): seq<Entry> {
    if es == [] then [] else (if es[0].name == n then [] else [es[0]]) + Without(es[1..], n)
  }

  lemma {:induction false} WithoutAbsent(es: seq<Entry>, n: string)
    requires forall k :: 0 <= k < |es| ==> es[k].name != n
    ensures Without(es, n) == es
  {
    if es != [] {
      WithoutAbsent(es[1..], n);
    }
  }

  lemma {:induction false} WithoutFound(es: seq<Entry>, k: nat)
    requires WellFormed(es) && k < |es|
    ensures Without(es, es[k].name) == RemoveAt(es, k)
  {
    if k == 0 {
      WithoutAbsent(es[1..], es[0].name);
    } else {
      WithoutFound(es[1..], k - 1);
      assert es[1..][k - 1] == es[k];
      assert es[0].name != es[k].name;
    }
  }

  /** A new name at the end is a map update. */
  lemma {:induction false} AppendMap(es: seq<Entry>, e: Entry)
    requires e.name !in AsMap(es)
    ensures AsMap(es + [e]) == AsMap(es)[e.name := e.value]
  {
    if es == [] {
      assert (es + [e])[1..] == [];
    } else {
      AppendMap(es[1..], e);
      assert (es + [e])[1..] == es[1..] + [e];
    }
  }

  lemma AppendWellFormed(es: seq<Entry>, e: Entry)
    requires WellFormed(es) && IsEntry(e) && e.name !in AsMap(es)
    ensures WellFormed(es + [e])
  {
    AsMapKeys(es);
  }

  // ---- the bytes determine the entries ----

  lemma SameUpToNul(u: string, v: string, x: string, y: string)
    requires (forall i :: 0 <= i < |u| ==> u[i] != NUL) && forall i :: 0 <= i < |v| ==> v[i] != NUL
    requires u + [NUL] + x <= v + [NUL] + y || v + [NUL] + y <= u + [NUL] + x
    ensures u == v
  {
    var s, t := u + [NUL] + x, v + [NUL] + y;
    assert s[|u|] == NUL && t[|v|] == NUL;
    assert forall i :: 0 <= i < |u| ==> s[i] == u[i];
    assert forall i :: 0 <= i < |v| ==> t[i] == v[i];
    assert !(|u| < |v|) && !(|v| < |u|);
  }

  lemma {:induction false} TextSplit(a: Entry, b: Entry, x: string, y: string)
    requires IsEntry(a) && IsEntry(b)
    requires Text(a) + [NUL] + x <= Text(b) + [NUL] + y || Text(b) + [NUL] + y <= Text(a) + [NUL] + x
    ensures a == b
  {
    TextHasNoNul(a);
    TextHasNoNul(b);
    SameUpToNul(Text(a), Text(b), x, y);
    var na, nb := |a.name|, |b.name|;
    assert Text(a)[na] == '=' && Text(b)[nb] == '=';
    assert forall i :: 0 <= i < na ==> Text(a)[i] == a.name[i] && a.name[i] in a.name;
    assert forall i :: 0 <= i < nb ==> Text(b)[i] == b.name[i] && b.name[i] in b.name;
    assert na == nb;
    assert a.name == Text(a)[..na] && b.name == Text(b)[..nb];
    assert a.value == Text(a)[na + 1..] && b.value == Text(b)[nb + 1..];
  }

  lemma FlatNonEmpty(es: seq<Entry>)
    requires es != [] && IsEntry(es[0])
    ensures Flat(es) != [] && Flat(es)[0] != NUL && Image(es)[0] != NUL
  {
    TextHasNoNul(es[0]);
    assert Flat(es)[0] == Text(es[0])[0];
  }

  /** Two well formed environments that one buffer could hold are the same one. */
  lemma {:induction false} ImageInjective(a: seq<Entry>, b: seq<Entry>)
    requires forall e :: e in a ==> IsEntry(e)
    requires forall e :: e in b ==> IsEntry(e)
    requires Image(a) <= Image(b)
    ensures a == b
    decreases |a|, 0
  {
    if a != [] { FlatNonEmpty(a); }
    if b != [] { FlatNonEmpty(b); }
    assert Image(a)[0] == Image(b)[0];
    if a != [] && b != [] {
      var x, y := Flat(a[1..]) + [NUL], Flat(b[1..]) + [NUL];
      assert Image(a) == Text(a[0]) + [NUL] + x;
      assert Image(b) == Text(b[0]) + [NUL] + y;
      TextSplit(a[0], b[0], x, y);
      assert x == Image(a)[|Text(a[0])| + 1..] && y == Image(b)[|Text(a[0])| + 1..];
      TailInjective(a[1..], b[1..]);
    }
  }

  lemma {:induction false} TailInjective(a: seq<Entry>, b: seq<Entry>)
    requires forall e :: e in a ==> IsEntry(e)
    requires forall e :: e in b ==> IsEntry(e)
    requires Flat(a) + [NUL] <= Flat(b) + [NUL]
    ensures a == b
    decreases |a|, 1
  {
    if a != [] { FlatNonEmpty(a); }
    if b != [] { FlatNonEmpty(b); }
    assert (Flat(a) + [NUL])[0] == (Flat(b) + [NUL])[0];
    if a != [] && b != [] {
      ImageInjective(a, b);
    }
  }
}

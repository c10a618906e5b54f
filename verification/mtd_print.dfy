/** generate_mtdparts: piece after piece into a buffer, as far as its limit allows, and what it
    writes when the limit is not that of the buffer. */
module MtdPrint {
  import opened MtdTypes
  import opened MtdText
  import opened Options

  // ---- the pieces ----

  function Flat(ts: seq<string>): string { if ts == [] then "" else ts[0] + Flat(ts[1..]) }

  lemma {:induction false} FlatAppend(a: seq<string>, b: seq<string>)
    ensures Flat(a + b) == Flat(a) + Flat(b)
  {
    if a == [] {
      assert a + b == b;
    } else {
      FlatAppend(a[1..], b);
      assert (a + b)[1..] == a[1..] + b && (a + b)[0] == a[0];
      assert a[0] + (Flat(a[1..]) + Flat(b)) == a[0] + Flat(a[1..]) + Flat(b);
    }
  }

  lemma FlatOne(t: string)
    ensures Flat([t]) == t
  {
    assert [t][1..] == [];
  }

  /** Whatever is printed in one go: all of it, or none. */
  function PartPieces(expected: int, p: Part): seq<string> {
    [MemsizeFormat(p.size)]
    + (if p.offset == expected then [] else [OffsetText(expected, p)])
    + (if p.autoName then [] else [NameText(p)])
    + (if p.readOnly then [RoText(p)] else [])
  }

  function Separators(c: char, left: nat): seq<string> { if left > 1 then [[c]] else [] }

  function PartsPieces(parts: seq<Part>, expected: int): seq<string> {
    if parts == [] then []
    else
      PartPieces(expected, parts[0]) + Separators(',', |parts|)
      + PartsPieces(parts[1..], Wrap(parts[0].offset + parts[0].size))
  }

  function DevPieces(d: Device): seq<string> { [d.id.name + [':']] + PartsPieces(d.parts, 0) }

  function DevsPieces(devs: seq<Device>): seq<string> {
    if devs == [] then []
    else DevPieces(devs[0]) + Separators(';', |devs|) + DevsPieces(devs[1..])
  }

  lemma PartFlat(expected: int, p: Part)
    ensures Flat(PartPieces(expected, p)) == PartText(expected, p)
  {
    hide MemsizeFormat, Flat;
    var a := [MemsizeFormat(p.size)];
    var b := if p.offset == expected then [] else [OffsetText(expected, p)];
    var c := if p.autoName then [] else [NameText(p)];
    var d := if p.readOnly then [RoText(p)] else [];
    FlatAppend(a + b + c, d);
    FlatAppend(a + b, c);
    FlatAppend(a, b);
    FlatNone();
    FlatOne(MemsizeFormat(p.size));
    FlatOne(OffsetText(expected, p));
    FlatOne(NameText(p));
    FlatOne(RoText(p));
  }

  lemma FlatNone()
    ensures Flat([]) == ""
  {
  }

  lemma SeparatorFlat(c: char, left: nat)
    ensures Flat(Separators(c, left)) == Separator(c, left)
  {
    FlatOne([c]);
  }

  lemma {:induction false} PartsFlat(parts: seq<Part>, expected: int)
    ensures Flat(PartsPieces(parts, expected)) == PartsText(parts, expected)
    decreases |parts|
  {
    hide PartPieces, PartText, Separators, Separator, Flat;
    if parts == [] {
      FlatNone();
    } else {
      var next := Wrap(parts[0].offset + parts[0].size);
      var a, b, c := PartPieces(expected, parts[0]), Separators(',', |parts|), PartsPieces(parts[1..], next);
      FlatAppend(a + b, c);
      FlatAppend(a, b);
      PartFlat(expected, parts[0]);
      SeparatorFlat(',', |parts|);
      PartsFlat(parts[1..], next);
    }
  }

  /** The pieces make up the text. */
  lemma {:induction false} DevsFlat(devs: seq<Device>)
    ensures Flat(DevsPieces(devs)) == DevsText(devs)
    decreases |devs|
  {
    hide PartsPieces, PartsText, Separators, Separator, Flat;
    if devs == [] {
      FlatNone();
    } else {
      var d := devs[0];
      var a, b, c := DevPieces(d), Separators(';', |devs|), DevsPieces(devs[1..]);
      FlatAppend(a + b, c);
      FlatAppend(a, b);
      FlatAppend([d.id.name + [':']], PartsPieces(d.parts, 0));
      FlatOne(d.id.name + [':']);
      PartsFlat(d.parts, 0);
      SeparatorFlat(';', |devs|);
      DevsFlat(devs[1..]);
    }
  }

  /** How many characters are printed before a piece does not fit. */
  function Fit(ts: seq<string>, max: nat): (r: nat)
    ensures r <= max
  {
    if ts == [] || |ts[0]| > max then 0 else |ts[0]| + Fit(ts[1..], max - |ts[0]|)
  }

  /** The first n pieces have been put behind what was there; the next one does not fit. */
  ghost predicate Put(before: string, after: string, ts: seq<string>, n: nat, max: nat, left: nat) {
    && n <= |ts| && after == before + Flat(ts[..n]) && left + |Flat(ts[..n])| == max
    && (n < |ts| ==> |ts[n]| > left)
  }

  lemma {:induction false} PutFit(before: string, after: string, ts: seq<string>, n: nat, max: nat, left: nat)
    requires Put(before, after, ts, n, max, left)
    ensures |after| == |before| + Fit(ts, max)
    ensures n == |ts| <==> |Flat(ts)| <= max
    ensures n == |ts| ==> after == before + Flat(ts)
    decreases n
  {
    if n == 0 {
      if ts != [] { assert |Flat(ts)| >= |ts[0]|; }
      assert ts[..0] == [];
    } else {
      var t, rest := ts[0], ts[1..];
      assert ts[..n][1..] == rest[..n - 1] && ts[..n][0] == t;
      assert Flat(ts[..n]) == t + Flat(rest[..n - 1]);
      assert before + t + Flat(rest[..n - 1]) == before + (t + Flat(rest[..n - 1]));
      PutFit(before + t, after, rest, n - 1, max - |t|, left);
      assert before + t + Flat(rest) == before + (t + Flat(rest));
    }
  }

  /** Two stretches of pieces. */
  lemma PutMore(a: string, b: string, c: string, x: seq<string>, y: seq<string>, n: nat, max: nat, mid: nat, left: nat)
    requires Put(a, b, x, |x|, max, mid) && Put(b, c, y, n, mid, left)
    ensures Put(a, c, x + y, |x| + n, max, left)
  {
    hide Flat;
    assert x[..|x|] == x && (x + y)[..|x| + n] == x + y[..n];
    FlatAppend(x, y[..n]);
    assert a + Flat(x) + Flat(y[..n]) == a + (Flat(x) + Flat(y[..n]));
  }

  /** A stretch that was broken off, in front of others. */
  lemma PutLess(a: string, b: string, x: seq<string>, y: seq<string>, n: nat, max: nat, left: nat)
    requires Put(a, b, x, n, max, left) && n < |x|
    ensures Put(a, b, x + y, n, max, left)
  {
    assert (x + y)[..n] == x[..n];
  }

  lemma PutNothing(a: string, max: nat)
    ensures Put(a, a, [], 0, max, max)
  {
    assert a + "" == a;
  }

  // ---- the loops ----

  /** memcpy of one piece, when it still fits. */
  method PutPiece(buf: array<char>, p: nat, maxlen: nat, t: string) returns (ok: bool, q: nat, left: nat)
    requires p + maxlen <= buf.Length
    modifies buf
    ensures ok <==> |t| <= maxlen
    ensures p <= q && q + left == p + maxlen
    ensures Put(old(buf[..p]), buf[..q], [t], if ok then 1 else 0, maxlen, left)
    ensures forall j :: q <= j < buf.Length ==> buf[j] == old(buf[j])
  {
    FlatOne(t);
    FlatNone();
    ghost var before := buf[..p];
    if |t| > maxlen {
      assert before + "" == before;
      return false, p, maxlen;
    }
    var i := 0;
    while i < |t|
      invariant i <= |t| && buf[..p + i] == before + t[..i]
      invariant forall j :: p + i <= j < buf.Length ==> buf[j] == old(buf[j])
    {
      buf[p + i] := t[i];
      assert buf[..p + i + 1] == before + t[..i] + [t[i]];
      assert t[..i + 1] == t[..i] + [t[i]];
      i := i + 1;
    }
    assert t[..i] == t;
    ok, q, left := true, p + |t|, maxlen - |t|;
  }

  /** Size, offset after a gap, user name and ro flag of one partition. */
  method GeneratePart(prev: Option<Part>, part: Part, buf: array<char>, p: nat, maxlen: nat)
    returns (ok: bool, q: nat, left: nat, ghost n: nat)
    requires p + maxlen <= buf.Length
    modifies buf
    ensures p <= q && q + left == p + maxlen
    ensures var ts := PartPieces(Expected(prev), part);
            Put(old(buf[..p]), buf[..q], ts, n, maxlen, left) && (ok <==> n == |ts|)
    ensures forall j :: q <= j < buf.Length ==> buf[j] == old(buf[j])
  {
    hide MemsizeFormat, Put, PartPieces, Expected, Gap;
    ghost var a, ts := buf[..p], [];
    ghost var all := PartPieces(Expected(prev), part);
    ghost var t1, t2, t3 := PartStages(prev, part);
    PutNothing(a, maxlen);
    ok, q, left, ts := Also(buf, p, maxlen, MemsizeFormat(part.size), a, ts, all, maxlen);
    if !ok { n := |ts|; return; }
    if Gap(prev, part) {
      ok, q, left, ts := Also(buf, q, left, ['@'] + MemsizeFormat(part.offset), a, ts, all, maxlen);
      if !ok { n := |ts|; return; }
    }
    if !part.autoName {
      ok, q, left, ts := Also(buf, q, left, ['('] + part.name + [')'], a, ts, all, maxlen);
      if !ok { n := |ts|; return; }
    }
    if part.readOnly {
      ok, q, left, ts := Also(buf, q, left, "ro", a, ts, all, maxlen);
      if !ok { n := |ts|; return; }
    }
    n := |ts|;
  }

  /** The pieces of a partition up to its size, its offset and its name. */
  lemma PartStages(prev: Option<Part>, part: Part) returns (t1: seq<string>, t2: seq<string>, t3: seq<string>)
    ensures var all := PartPieces(Expected(prev), part);
            && t1 == [] + [MemsizeFormat(part.size)] && t1 <= all
            && t2 == (if Gap(prev, part) then t1 + [['@'] + MemsizeFormat(part.offset)] else t1) && t2 <= all
            && t3 == (if part.autoName then t2 else t2 + [['('] + part.name + [')']]) && t3 <= all
            && all == (if part.readOnly then t3 + ["ro"] else t3)
  {
    hide MemsizeFormat, Wrap;
    GapIs(prev, part);
    t1 := [] + [MemsizeFormat(part.size)];
    t2 := if Gap(prev, part) then t1 + [['@'] + MemsizeFormat(part.offset)] else t1;
    t3 := if part.autoName then t2 else t2 + [['('] + part.name + [')']];
  }

  /** The next piece of a stretch that begins with `done`. */
  method Also(buf: array<char>, p: nat, maxlen: nat, t: string, ghost a: string, ghost done: seq<string>,
              ghost all: seq<string>, ghost max: nat)
    returns (ok: bool, q: nat, left: nat, ghost now: seq<string>)
    requires p + maxlen <= buf.Length && Put(a, buf[..p], done, |done|, max, maxlen)
    requires done + [t] <= all
    modifies buf
    ensures ok <==> |t| <= maxlen
    ensures p <= q && q + left == p + maxlen
    ensures now == if ok then done + [t] else done
    ensures ok ==> Put(a, buf[..q], now, |now|, max, left)
    ensures !ok ==> Put(a, buf[..q], all, |now|, max, left) && |now| < |all|
    ensures forall j :: q <= j < buf.Length ==> buf[j] == old(buf[j])
  {
    hide Put;
    ghost var b := buf[..p];
    ok, q, left := PutPiece(buf, p, maxlen, t);
    PutMore(a, b, buf[..q], done, [t], if ok then 1 else 0, max, maxlen, left);
    now := if ok then done + [t] else done;
    if !ok {
      PutLess(a, buf[..q], done + [t], all[|done| + 1..], |done|, max, left);
      assert done + [t] + all[|done| + 1..] == all;
    }
  }

  /** A stretch behind `done`: all of it, or broken off. */
  lemma PutOn(a: string, b: string, c: string, done: seq<string>, x: seq<string>, all: seq<string>, n: nat, max: nat,
              mid: nat, left: nat)
    requires Put(a, b, done, |done|, max, mid) && Put(b, c, x, n, mid, left) && done + x <= all
    ensures n == |x| ==> Put(a, c, done + x, |done + x|, max, left)
    ensures n < |x| ==> Put(a, c, all, |done| + n, max, left) && |done| + n < |all|
    ensures n <= |x|
  {
    PutMore(a, b, c, done, x, n, max, mid, left);
    if n < |x| {
      PutLess(a, c, done + x, all[|done + x|..], |done| + n, max, left);
      assert done + x + all[|done + x|..] == all;
    }
  }

  method GenerateParts(dev: Device, buf: array<char>, p: nat, maxlen: nat)
    returns (ok: bool, q: nat, left: nat, ghost n: nat)
    requires p + maxlen <= buf.Length && dev.numParts == |dev.parts|
    modifies buf
    ensures p <= q && q + left == p + maxlen
    ensures var ts := PartsPieces(dev.parts, 0);
            Put(old(buf[..p]), buf[..q], ts, n, maxlen, left) && (ok <==> n == |ts|)
    ensures forall j :: q <= j < buf.Length ==> buf[j] == old(buf[j])
  {
    hide PartPieces, PartsPieces, Put, Wrap;
    var parts := dev.parts;
    ghost var a, all, done: seq<string> := buf[..p], PartsPieces(dev.parts, 0), [];
    PutNothing(a, maxlen);
    ok, q, left := true, p, maxlen;
    var prev: Option<Part> := None;
    var cnt := 0;
    assert parts[0..] == parts && [] + all == all;
    while cnt < |parts|
      invariant ok && cnt <= |parts| && p <= q && q + left == p + maxlen
      invariant done + PartsPieces(parts[cnt..], Expected(prev)) == all
      invariant Put(a, buf[..q], done, |done|, maxlen, left)
      invariant forall j :: q <= j < buf.Length ==> buf[j] == old(buf[j])
    {
      ok, q, left, done, n := GenerateNext(dev, cnt, prev, buf, q, left, a, done, all, maxlen);
      if !ok { return; }
      prev := Some(parts[cnt]);
      cnt := cnt + 1;
    }
    n := |done|;
    assert parts[cnt..] == [] && done + [] == done;
    PartsNone(Expected(prev));
  }

  /** A partition and the separator behind it. */
  method GenerateNext(dev: Device, cnt: nat, prev: Option<Part>, buf: array<char>, p: nat, maxlen: nat, ghost a: string,
                      ghost done: seq<string>, ghost all: seq<string>, ghost max: nat)
    returns (ok: bool, q: nat, left: nat, ghost now: seq<string>, ghost n: nat)
    requires p + maxlen <= buf.Length && cnt < |dev.parts| && dev.numParts == |dev.parts|
    requires done + PartsPieces(dev.parts[cnt..], Expected(prev)) == all && Put(a, buf[..p], done, |done|, max, maxlen)
    modifies buf
    ensures p <= q && q + left == p + maxlen
    ensures ok ==> now + PartsPieces(dev.parts[cnt + 1..], Expected(Some(dev.parts[cnt]))) == all
                   && Put(a, buf[..q], now, |now|, max, left)
    ensures !ok ==> Put(a, buf[..q], all, n, max, left) && n < |all|
    ensures forall j :: q <= j < buf.Length ==> buf[j] == old(buf[j])
  {
    hide PartPieces, PartsPieces, Put, Separators, Wrap, Expected;
    var part := dev.parts[cnt];
    ghost var x, y := PartPieces(Expected(prev), part), Separators(',', |dev.parts| - cnt);
    ghost var z := PartsPieces(dev.parts[cnt + 1..], Expected(Some(part)));
    PartsCons(dev.parts, cnt, prev);
    Three(done, x, y, z, all);
    ghost var b := buf[..p];
    ok, q, left, n := GeneratePart(prev, part, buf, p, maxlen);
    PutOn(a, b, buf[..q], done, x, all, n, max, maxlen, left);
    n := |done| + n;
    now := done;
    if !ok { return; }
    ok, q, left, now := Separate(',', dev.numParts - cnt, buf, q, left, a, done + x, all, max);
    n := |now|;
  }

  /** The separator behind an entry, unless it is the last of those left. */
  method Separate(c: char, entries: nat, buf: array<char>, p: nat, maxlen: nat, ghost a: string,
                  ghost done: seq<string>, ghost all: seq<string>, ghost max: nat)
    returns (ok: bool, q: nat, left: nat, ghost now: seq<string>)
    requires p + maxlen <= buf.Length && done + Separators(c, entries) <= all
    requires Put(a, buf[..p], done, |done|, max, maxlen)
    modifies buf
    ensures p <= q && q + left == p + maxlen
    ensures ok ==> now == done + Separators(c, entries) && Put(a, buf[..q], now, |now|, max, left)
    ensures !ok ==> Put(a, buf[..q], all, |now|, max, left) && |now| < |all|
    ensures forall j :: q <= j < buf.Length ==> buf[j] == old(buf[j])
  {
    hide Put;
    ok, q, left, now := true, p, maxlen, done;
    if entries > 1 {
      ok, q, left, now := Also(buf, p, maxlen, [c], a, done, all, max);
    } else {
      assert done + [] == done;
    }
  }

  lemma PartsNone(expected: int)
    ensures PartsPieces([], expected) == []
  {
  }

  lemma PartsCons(parts: seq<Part>, k: nat, prev: Option<Part>)
    requires k < |parts|
    ensures PartsPieces(parts[k..], Expected(prev))
         == PartPieces(Expected(prev), parts[k]) + Separators(',', |parts| - k)
            + PartsPieces(parts[k + 1..], Expected(Some(parts[k])))
  {
    assert parts[k..][1..] == parts[k + 1..] && parts[k..][0] == parts[k];
  }

  lemma Three(a: seq<string>, x: seq<string>, y: seq<string>, z: seq<string>, all: seq<string>)
    requires a + (x + y + z) == all
    ensures a + x <= all && a + x + y <= all && a + x + y + z == all
  {
    assert a + (x + y + z) == a + x + y + z;
    assert all[..|a + x|] == a + x && all[..|a + x + y|] == a + x + y;
  }

  /** How many characters of its buffer the printer writes; the prefix comes with a NUL. */
  function Extent(devs: seq<Device>, buflen: nat): nat
    requires buflen > 0
  {
    if devs == [] then 1
    else
      var fit := Fit(DevsPieces(devs), buflen - 1);
      |PREFIX| + if |DevsText(devs)| <= buflen - 1 then fit + 1 else if fit == 0 then 1 else fit
  }

  /** generate_mtdparts into last_parts, which the error exit empties. The limit is not charged
      for the prefix, so what is written may be nine characters and a NUL longer; nothing behind
      that is touched. */
  method GenerateMtdparts(devs: seq<Device>, buf: array<char>, buflen: nat) returns (ok: bool, extent: nat)
    requires buflen > 0 && buf.Length >= buflen + |PREFIX| && forall d :: d in devs ==> d.numParts == |d.parts|
    modifies buf
    ensures ok <==> |DevsText(devs)| <= buflen - 1
    ensures ok ==> |TableText(devs)| < buf.Length
                   && buf[..|TableText(devs)|] == TableText(devs) && buf[|TableText(devs)|] == NUL
    ensures !ok ==> buf[0] == NUL
    ensures extent == Extent(devs, buflen)
    ensures forall j :: extent <= j < buf.Length ==> buf[j] == old(buf[j])
  {
    hide DevPieces, DevsPieces, PartsPieces, DevsText, TableText, Put, Flat, Fit;
    TableTextIs(devs);
    if devs == [] {
      buf[0] := NUL;
      return true, 1;
    }
    var k := 0;
    while k < |PREFIX|
      invariant k <= |PREFIX| && buf[..k] == PREFIX[..k]
      invariant forall j :: k <= j < buf.Length ==> buf[j] == old(buf[j])
    {
      buf[k] := PREFIX[k];
      assert PREFIX[..k + 1] == PREFIX[..k] + [PREFIX[k]];
      k := k + 1;
    }
    buf[k] := NUL;
    var p, left: nat := |PREFIX|, buflen - 1;
    ghost var all, done: seq<string> := DevsPieces(devs), [];
    ghost var n: nat;
    PutNothing(PREFIX, left);
    assert buf[..p] == PREFIX;
    var i := 0;
    ok := true;
    assert devs[0..] == devs && [] + all == all;
    while i < |devs|
      invariant ok && i <= |devs| && |PREFIX| <= p && p + left == |PREFIX| + buflen - 1
      invariant done + DevsPieces(devs[i..]) == all
      invariant Put(PREFIX, buf[..p], done, |done|, buflen - 1, left)
      invariant forall j :: p <= j < buf.Length && j > |PREFIX| ==> buf[j] == old(buf[j])
    {
      assert devs[i] in devs;
      ok, p, left, done, n := GenerateDevice(devs, i, buf, p, left, done, all, buflen - 1);
      if !ok {
        Printed(buf[..p], devs, n, buflen - 1, left);
        buf[0] := NUL;
        return false, if p == |PREFIX| then p + 1 else p;
      }
      i := i + 1;
    }
    assert devs[i..] == [] && done + [] == done;
    NoPieces();
    Printed(buf[..p], devs, |done|, buflen - 1, left);
    buf[p] := NUL;
    assert buf[..p] == TableText(devs);
    return true, p + 1;
  }

  /** The id, the partitions and the separator of one device. */
  method GenerateDevice(devs: seq<Device>, i: nat, buf: array<char>, p: nat, maxlen: nat, ghost done: seq<string>,
                        ghost all: seq<string>, ghost max: nat)
    returns (ok: bool, q: nat, left: nat, ghost now: seq<string>, ghost n: nat)
    requires p + maxlen <= buf.Length && i < |devs| && devs[i].numParts == |devs[i].parts|
    requires done + DevsPieces(devs[i..]) == all && Put(PREFIX, buf[..p], done, |done|, max, maxlen)
    modifies buf
    ensures p <= q && q + left == p + maxlen
    ensures ok ==> now + DevsPieces(devs[i + 1..]) == all && Put(PREFIX, buf[..q], now, |now|, max, left)
    ensures !ok ==> Put(PREFIX, buf[..q], all, n, max, left) && n < |all|
    ensures forall j :: q <= j < buf.Length ==> buf[j] == old(buf[j])
  {
    hide DevPieces, DevsPieces, PartsPieces, Put, Separators;
    var dev := devs[i];
    ghost var head, full := DeviceStages(devs, i, done, all);
    ok, q, left, now := Also(buf, p, maxlen, dev.id.name + [':'], PREFIX, done, all, max);
    n := |now|;
    if !ok { return; }
    ok, q, left, now, n := GenerateRest(devs, i, buf, q, left, head, full, all, max);
  }

  /** What follows the id of a device. */
  method GenerateRest(devs: seq<Device>, i: nat, buf: array<char>, p: nat, maxlen: nat, ghost head: seq<string>,
                      ghost full: seq<string>, ghost all: seq<string>, ghost max: nat)
    returns (ok: bool, q: nat, left: nat, ghost now: seq<string>, ghost n: nat)
    requires p + maxlen <= buf.Length && i < |devs| && devs[i].numParts == |devs[i].parts|
    requires full == head + PartsPieces(devs[i].parts, 0) && full <= all
    requires full + Separators(';', |devs| - i) <= all && Put(PREFIX, buf[..p], head, |head|, max, maxlen)
    modifies buf
    ensures p <= q && q + left == p + maxlen
    ensures ok ==> now == full + Separators(';', |devs| - i) && Put(PREFIX, buf[..q], now, |now|, max, left)
    ensures !ok ==> Put(PREFIX, buf[..q], all, n, max, left) && n < |all|
    ensures forall j :: q <= j < buf.Length ==> buf[j] == old(buf[j])
  {
    hide DevPieces, DevsPieces, PartsPieces, Put, Separators;
    ghost var b := buf[..p];
    now := full;
    ok, q, left, n := GenerateParts(devs[i], buf, p, maxlen);
    PutOn(PREFIX, b, buf[..q], head, PartsPieces(devs[i].parts, 0), all, n, max, maxlen, left);
    n := |head| + n;
    if !ok { return; }
    ok, q, left, now := Separate(';', |devs| - i, buf, q, left, PREFIX, full, all, max);
    n := |now|;
  }

  /** The pieces up to the id of a device, and up to its last partition. */
  lemma DeviceStages(devs: seq<Device>, i: nat, done: seq<string>, all: seq<string>)
    returns (head: seq<string>, full: seq<string>)
    requires i < |devs| && done + DevsPieces(devs[i..]) == all
    ensures head == done + [devs[i].id.name + [':']] && head <= all
    ensures full == head + PartsPieces(devs[i].parts, 0) && full <= all
    ensures full + Separators(';', |devs| - i) <= all
    ensures full + Separators(';', |devs| - i) + DevsPieces(devs[i + 1..]) == all
  {
    hide DevsPieces, PartsPieces, Separators, DevPieces;
    var x := DevPieces(devs[i]);
    DevsCons(devs, i);
    Three(done, x, Separators(';', |devs| - i), DevsPieces(devs[i + 1..]), all);
    DevHead(devs[i], done, x, all);
    head, full := done + [devs[i].id.name + [':']], done + x;
  }

  /** What the pieces say about text and length. */
  lemma Printed(after: string, devs: seq<Device>, n: nat, max: nat, left: nat)
    requires Put(PREFIX, after, DevsPieces(devs), n, max, left)
    ensures |after| == |PREFIX| + Fit(DevsPieces(devs), max)
    ensures n == |DevsPieces(devs)| <==> |DevsText(devs)| <= max
    ensures n == |DevsPieces(devs)| ==> after == PREFIX + DevsText(devs)
  {
    hide DevsPieces, DevsText, Put, Fit;
    PutFit(PREFIX, after, DevsPieces(devs), n, max, left);
    DevsFlat(devs);
  }

  lemma NoPieces()
    ensures DevsPieces([]) == []
  {
  }

  lemma DevsCons(devs: seq<Device>, k: nat)
    requires k < |devs|
    ensures DevsPieces(devs[k..])
         == DevPieces(devs[k]) + Separators(';', |devs| - k) + DevsPieces(devs[k + 1..])
  {
    assert devs[k..][1..] == devs[k + 1..] && devs[k..][0] == devs[k];
  }

  lemma DevHead(d: Device, done: seq<string>, x: seq<string>, all: seq<string>)
    requires x == DevPieces(d) && done + x <= all
    ensures done + [d.id.name + [':']] <= all
    ensures done + [d.id.name + [':']] + PartsPieces(d.parts, 0) == done + x
  {
    hide PartsPieces;
    assert done + ([d.id.name + [':']] + PartsPieces(d.parts, 0))
        == done + [d.id.name + [':']] + PartsPieces(d.parts, 0);
    assert all[..|done + [d.id.name + [':']]|] == done + [d.id.name + [':']];
  }

  lemma TableTextIs(devs: seq<Device>)
    ensures devs == [] ==> TableText(devs) == [] && DevsText(devs) == []
    ensures devs != [] ==> TableText(devs) == PREFIX + DevsText(devs)
    ensures DevsText([]) == []
  {
    hide DevText;
  }

  lemma ExtentIs(devs: seq<Device>, buflen: nat)
    requires buflen > |PREFIX| && |DevsText(devs)| <= buflen - 1
    ensures Extent(devs, buflen) == |TableText(devs)| + 1
    ensures devs != [] ==> TableText(devs) != "" && TableText(devs)[0] != NUL
  {
    hide DevsText, DevsPieces, Fit;
    TableTextIs(devs);
    DevsFlat(devs);
    AllFits(DevsPieces(devs), buflen - 1);
  }

  /** The printer stays inside a buffer of its limit when the text, prefix and NUL included, does;
      a text within the limit that does not is always written past the end; and one beyond the
      limit is when the pieces that fit are. */
  lemma InsideIff(devs: seq<Device>, buflen: nat)
    requires devs != [] && buflen > |PREFIX|
    ensures |DevsText(devs)| <= buflen - 1 ==>
              (Extent(devs, buflen) <= buflen <==> |DevsText(devs)| <= buflen - 1 - |PREFIX|)
    ensures |DevsText(devs)| > buflen - 1 ==>
              (Extent(devs, buflen) <= buflen <==> Fit(DevsPieces(devs), buflen - 1) <= buflen - |PREFIX|)
    ensures Extent(devs, buflen) <= buflen + |PREFIX|
  {
    hide DevsText, DevsPieces, Fit;
    DevsFlat(devs);
    if |DevsText(devs)| <= buflen - 1 { AllFits(DevsPieces(devs), buflen - 1); }
  }

  lemma {:induction false} AllFits(ts: seq<string>, max: nat)
    requires |Flat(ts)| <= max
    ensures Fit(ts, max) == |Flat(ts)|
    decreases |ts|
  {
    if ts != [] { AllFits(ts[1..], max - |ts[0]|); }
  }

  /** Where a partition starts when it leaves no gap. */
  function Expected(prev: Option<Part>): u32 {
    if prev.None? then 0 else Wrap(prev.value.offset + prev.value.size)
  }

  /** The test for printing an offset. */
  predicate Gap(prev: Option<Part>, part: Part) {
    (prev.None? && part.offset != 0) || (prev.Some? && Wrap(prev.value.offset + prev.value.size) != part.offset)
  }

  lemma GapIs(prev: Option<Part>, part: Part)
    ensures Gap(prev, part) <==> part.offset != Expected(prev)
  {
  }
}

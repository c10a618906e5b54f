/** The global partition table: the device list, the current partition, and the
    environment variables kept in step with them. */
module MtdTable {
  import opened MtdTypes
  import opened MtdBlocks
  import opened MtdLists
  import opened MtdText
  import opened MtdRoundTrip
  import opened Options

  /** strncmp against a literal. */
  predicate StartsAt(s: string, p: nat, t: string) { p + |t| <= |s| && s[p..p + |t|] == t }

  /** 'nand'|'nor'|'onenand' followed by a number, which is cut to 8 bits. */
  function MtdIdParse(s: string): (r: Option<(DevType, nat, nat)>)
    ensures r.Some? ==> r.value.2 <= |s|
  {
    var head :=
      if StartsAt(s, 0, "nand") then Some((NAND, 4))
      else if StartsAt(s, 0, "nor") then Some((NOR, 3))
      else if StartsAt(s, 0, "onenand") then Some((ONENAND, 7))
      else None;
    if head.None? || !('0' <= CharAt(s, head.value.1) <= '9') then None
    else
      var (n, q) := Strtoul(s, head.value.1);
      Some((head.value.0, n % 256, q))
  }

  /** Number of partitions on the first k devices. */
  function Before(devs: seq<Device>, k: nat): nat
    requires k <= |devs|
  {
    if k == 0 then 0 else Before(devs, k - 1) + |devs[k - 1].parts|
  }

  /** All partitions, device after device. */
  function AllParts(devs: seq<Device>): seq<Part> {
    if devs == [] then [] else AllParts(devs[..|devs| - 1]) + devs[|devs| - 1].parts
  }

  lemma {:induction false} BeforePrefix(devs: seq<Device>, k: nat, n: nat)
    requires k <= n <= |devs|
    ensures Before(devs[..n], k) == Before(devs, k)
    decreases k
  {
    if k > 0 {
      BeforePrefix(devs, k - 1, n);
    }
  }

  /** Device i's partition j stands at Before(i) + j among all partitions. */
  lemma {:induction false} GlobalNumber(devs: seq<Device>, i: nat, j: nat)
    requires i < |devs| && j < |devs[i].parts|
    ensures |AllParts(devs)| == Before(devs, |devs|)
    ensures Before(devs, i) + j < |AllParts(devs)| && AllParts(devs)[Before(devs, i) + j] == devs[i].parts[j]
    decreases |devs|
  {
    var n := |devs| - 1;
    AllPartsLength(devs);
    AllPartsLength(devs[..n]);
    BeforePrefix(devs, n, n);
    if i < n {
      GlobalNumber(devs[..n], i, j);
      BeforePrefix(devs, i, n);
    }
  }

  lemma {:induction false} AllPartsLength(devs: seq<Device>)
    ensures |AllParts(devs)| == Before(devs, |devs|)
  {
    if devs != [] {
      var n := |devs| - 1;
      AllPartsLength(devs[..n]);
      BeforePrefix(devs, n, n);
    }
  }

  /** What every command keeps true of one device. */
  ghost predicate OkDevice(ids: seq<MtdId>, d: Device) {
    && d.id in ids && FirstOfName(ids, d.id)
    && d.parts != [] && d.numParts == |d.parts|
    && Sorted(d.parts) && OneAtZero(d.parts)
    && AllFit(d.id, d.parts)
  }

  ghost predicate AllFit(id: MtdId, parts: seq<Part>) {
    forall q :: q in parts ==> Fits(id, q) && NameOk(q)
  }

  ghost predicate OkDevices(ids: seq<MtdId>, devs: seq<Device>) {
    && (forall d :: d in devs ==> OkDevice(ids, d))
    && UniqueKeys(devs)
  }

  ghost predicate OkIds(ids: seq<MtdId>) {
    && (forall id :: id in ids ==> Sane(id.geometry) && id.num < 256)
    && (forall i, j :: 0 <= i < j < |ids| ==> !SameKey(ids[i], ids[j]))
  }

  // ---- what the parser delivers is ok ----

  lemma ParsedNameOk(s: string, p: nat)
    requires p <= |s| && ParsePart(s, p).Some?
    ensures NameOk(ParsePart(s, p).value.part)
  {
    hide MemsizeParse, AutoName, NamePart, SizePart, OffsetPart, RoPart;
    var size := SizePart(s, p);
    var p2 := OffsetPart(s, size.value.1).1;
    if NamePart(s, p2).value.0.Some? { NamePartOk(s, p2); }
  }

  lemma NamePartOk(s: string, p: nat)
    requires p <= |s| && NamePart(s, p).Some? && NamePart(s, p).value.0.Some?
    ensures var name := NamePart(s, p).value.0.value; name != [] && ')' !in name && NUL !in name
  {
    hide IndexOf;
  }

  lemma {:induction false} ParsedPartsFit(s: string, p: nat, id: MtdId, offset: u32)
    requires p <= |s| && ParseParts(s, p, id, offset).Some?
    ensures AllFit(id, ParseParts(s, p, id, offset).value.0)
    decreases |s| - p
  {
    hide ParsePart, WholeBlocks;
    if CharAt(s, p) != NUL && CharAt(s, p) != ';' {
      ParsedNameOk(s, p);
      var parsed := ParsePart(s, p).value;
      var valid := Validated(id, Place(parsed.part, offset)).value;
      ParsedPartsFit(s, parsed.next, id, Wrap(valid.offset + valid.size));
    }
  }

  lemma {:induction false} FoundIdIn(ids: seq<MtdId>, name: string)
    ensures FindId(ids, name).Some? ==> FindId(ids, name).value in ids && FindId(ids, name).value.name == name
  {
    if ids != [] && ids[0].name != name {
      FoundIdIn(ids[1..], name);
    }
  }

  lemma SameElements(id: MtdId, a: seq<Part>, b: seq<Part>)
    requires multiset(a) == multiset(b) && AllFit(id, a)
    ensures AllFit(id, b) && |a| == |b|
  {
    hide WholeBlocks;
    assert |multiset(a)| == |a| && |multiset(b)| == |b|;
    forall q | q in b ensures Fits(id, q) && NameOk(q) {
      assert q in multiset(b);
    }
  }

  /** Every device the parser accepts is ok, whatever the text. */
  lemma ParsedDeviceOk(s: string, p: nat, ids: seq<MtdId>, devs: seq<Device>)
    requires p <= |s| && ParseDevice(s, p, ids, devs).Some?
    ensures OkDevice(ids, ParseDevice(s, p, ids, devs).value.0)
  {
    hide ParseParts, InsertAll, AllFit, Sorted, OneAtZero, ParsePart;
    var colon := IndexOf(s, p, ':');
    FoundIdIn(ids, s[p..colon.value]);
    var id := FindId(ids, s[p..colon.value]).value;
    var offset := DefaultOffset(devs, id);
    ParsedPartsFit(s, colon.value + 1, id, offset);
    SomeParts(s, colon.value + 1, id, offset);
    var parts := ParseParts(s, colon.value + 1, id, offset).value.0;
    EmptyOk();
    InsertAllKeeps([], parts);
    assert multiset([]) + multiset(parts) == multiset(parts);
    SameElements(id, parts, InsertAll([], parts).value);
  }

  lemma SomeParts(s: string, p: nat, id: MtdId, offset: u32)
    requires p <= |s| && CharAt(s, p) != NUL && CharAt(s, p) != ';' && ParseParts(s, p, id, offset).Some?
    ensures ParseParts(s, p, id, offset).value.0 != []
  {
    hide ParsePart, WholeBlocks;
  }

  lemma {:induction false} ParsedDevicesOk(s: string, p: nat, ids: seq<MtdId>, devs: seq<Device>)
    requires p <= |s| && ParseDevices(s, p, ids, devs).Some? && OkDevices(ids, devs)
    ensures OkDevices(ids, ParseDevices(s, p, ids, devs).value)
    ensures |devs| <= |ParseDevices(s, p, ids, devs).value|
    decreases |s| - p
  {
    hide ParseDevice, OkDevice;
    if CharAt(s, p) != NUL {
      ParsedDeviceOk(s, p, ids, devs);
      var (d, next) := ParseDevice(s, p, ids, devs).value;
      var more := devs + [d];
      assert forall x :: x in more ==> x in devs || x == d;
      ParsedDevicesOk(s, next, ids, more);
    }
  }

  // ---- changing one device of an ok list ----

  /** Replacing a device by one with the same id keeps every lookup. */
  lemma {:induction false} SameLookup(a: seq<Device>, b: seq<Device>, kind: DevType, num: nat)
    requires |a| == |b| && forall i :: 0 <= i < |a| ==> a[i].id == b[i].id
    ensures FindDevice(a, kind, num) == FindDevice(b, kind, num)
  {
    if a != [] {
      assert forall i :: 0 <= i < |a[1..]| ==> a[1..][i] == a[i + 1] && b[1..][i] == b[i + 1];
      SameLookup(a[1..], b[1..], kind, num);
    }
  }

  lemma ReplacedOk(ids: seq<MtdId>, devs: seq<Device>, d: nat, dev: Device)
    requires OkDevices(ids, devs) && d < |devs| && OkDevice(ids, dev) && dev.id == devs[d].id
    ensures OkDevices(ids, devs[d := dev])
    ensures forall kind, num :: FindDevice(devs[d := dev], kind, num) == FindDevice(devs, kind, num)
  {
    hide OkDevice, FindDevice;
    var r := devs[d := dev];
    forall x | x in r ensures OkDevice(ids, x) {
      assert x in devs || x == dev;
    }
    forall kind, num ensures FindDevice(r, kind, num) == FindDevice(devs, kind, num) {
      SameLookup(r, devs, kind, num);
    }
  }

  lemma Replaced(ids: seq<MtdId>, devs: seq<Device>, d: nat, part: Part)
    requires OkDevices(ids, devs) && d < |devs|
    requires Fits(devs[d].id, part) && NameOk(part) && InsertSorted(devs[d].parts, part).Some?
    ensures var r := Device(devs[d].id, InsertSorted(devs[d].parts, part).value, |devs[d].parts| + 1);
            && OkDevices(ids, devs[d := r])
            && (forall kind, num :: FindDevice(devs[d := r], kind, num) == FindDevice(devs, kind, num))
  {
    hide FindDevice, Sorted, OneAtZero, WholeBlocks, InsertSorted;
    var ps := devs[d].parts;
    assert OkDevice(ids, devs[d]) by { assert devs[d] in devs; }
    InsertKeeps(ps, part);
    var q := InsertSorted(ps, part).value;
    assert |multiset(q)| == |q| && |multiset(ps)| == |ps|;
    FitsMore(devs[d].id, ps, part, q);
    ReplacedOk(ids, devs, d, Device(devs[d].id, q, |ps| + 1));
  }

  lemma FitsMore(id: MtdId, ps: seq<Part>, part: Part, q: seq<Part>)
    requires AllFit(id, ps) && Fits(id, part) && NameOk(part) && multiset(q) == multiset(ps) + multiset{part}
    ensures AllFit(id, q)
  {
    hide WholeBlocks, Fits, NameOk;
    forall x | x in q ensures Fits(id, x) && NameOk(x) {
      assert x in multiset(q);
    }
  }

  lemma {:induction false} FoundAt(ids: seq<MtdId>, devs: seq<Device>, i: nat)
    requires OkDevices(ids, devs) && i < |devs|
    ensures FindDevice(devs, devs[i].id.kind, devs[i].id.num) == Some(i)
  {
    hide OkDevice;
    FoundFirst(devs, devs[i].id.kind, devs[i].id.num, i);
    var j := FindDevice(devs, devs[i].id.kind, devs[i].id.num).value;
    assert SameKey(devs[j].id, devs[i].id);
  }

  /** Taking device d out keeps the list ok and finds every other device where it went. */
  lemma RemovedOk(ids: seq<MtdId>, devs: seq<Device>, d: nat, id: MtdId)
    requires OkDevices(ids, devs) && d < |devs|
    ensures var r := devs[..d] + devs[d + 1..];
            && OkDevices(ids, r)
            && var i := FindDevice(devs, id.kind, id.num);
               i.Some? && i.value != d ==>
               && FindDevice(r, id.kind, id.num) == Some(if i.value < d then i.value else i.value - 1)
               && r[if i.value < d then i.value else i.value - 1] == devs[i.value]
  {
    hide OkDevice;
    var r := devs[..d] + devs[d + 1..];
    assert forall i :: 0 <= i < |r| ==> r[i] == if i < d then devs[i] else devs[i + 1];
    forall x | x in r ensures OkDevice(ids, x) {
      assert x in devs;
    }
    var i := FindDevice(devs, id.kind, id.num);
    if i.Some? && i.value != d {
      var at := if i.value < d then i.value else i.value - 1;
      assert r[at] == devs[i.value];
      FoundAt(ids, r, at);
    }
  }

  /** The partition that a device id and a number name. */
  function Named(devs: seq<Device>, id: MtdId, n: nat): Option<Part> {
    var i := FindDevice(devs, id.kind, id.num);
    if i.None? || n >= |devs[i.value].parts| then None else Some(devs[i.value].parts[n])
  }

  /** After an insertion the adjusted number names the partition it named before, ties
      included; an 8-bit number needs at most 255 partitions beforehand. */
  lemma InsertKeepsNamed(ids: seq<MtdId>, devs: seq<Device>, d: nat, part: Part, id: MtdId, cur: nat)
    requires OkDevices(ids, devs) && d < |devs| && InsertSorted(devs[d].parts, part).Some?
    requires |devs[d].parts| <= 255 && Named(devs, id, cur).Some?
    ensures var ps := devs[d].parts;
            var devs' := devs[d := Device(devs[d].id, InsertSorted(ps, part).value, |ps| + 1)];
            var cur' := if FindDevice(devs, id.kind, id.num) == Some(d) && Shifts(ps, InsertPos(ps, part.offset), cur)
                        then (cur + 1) % 256 else cur;
            Named(devs', id, cur') == Named(devs, id, cur)
  {
    hide InsertSorted, InsertPos, FindDevice;
    var ps := devs[d].parts;
    var devs' := devs[d := Device(devs[d].id, InsertSorted(ps, part).value, |ps| + 1)];
    SameLookup(devs', devs, id.kind, id.num);
    assert OkDevice(ids, devs[d]) by { assert devs[d] in devs; }
    if FindDevice(devs, id.kind, id.num) == Some(d) {
      InsertIdentity(ps, part, cur);
    }
  }

  lemma RemovedPart(ids: seq<MtdId>, devs: seq<Device>, d: nat, k: nat)
    requires OkDevices(ids, devs) && d < |devs| && k < |devs[d].parts| && |devs[d].parts| > 1
    ensures var r := Device(devs[d].id, RemoveAt(devs[d].parts, k), |devs[d].parts| - 1);
            && OkDevices(ids, devs[d := r])
            && (forall kind, num :: FindDevice(devs[d := r], kind, num) == FindDevice(devs, kind, num))
  {
    hide FindDevice, Sorted, OneAtZero, WholeBlocks, Fits, NameOk;
    var ps := devs[d].parts;
    assert OkDevice(ids, devs[d]) by { assert devs[d] in devs; }
    RemoveKeeps(ps, k);
    ReplacedOk(ids, devs, d, Device(devs[d].id, RemoveAt(ps, k), |ps| - 1));
  }

  lemma AddedOk(ids: seq<MtdId>, devs: seq<Device>, dev: Device)
    requires OkDevices(ids, devs) && OkDevice(ids, dev)
    requires FindDevice(devs, dev.id.kind, dev.id.num) == None
    ensures OkDevices(ids, devs + [dev])
  {
    hide OkDevice;
    assert forall x :: x in devs + [dev] ==> x in devs || x == dev;
  }

  /** A device found before one more was added is found at the same place. */
  lemma FoundBefore(ids: seq<MtdId>, devs: seq<Device>, dev: Device, id: MtdId)
    requires OkDevices(ids, devs + [dev]) && FindDevice(devs, id.kind, id.num).Some?
    ensures FindDevice(devs + [dev], id.kind, id.num) == FindDevice(devs, id.kind, id.num)
  {
    hide OkDevice;
    var i := FindDevice(devs, id.kind, id.num).value;
    assert (devs + [dev])[i] == devs[i];
    FoundAt(ids, devs + [dev], i);
  }

  /** A parsed table is ok and not empty. */
  lemma ParsedTableOk(text: string, ids: seq<MtdId>)
    requires ParseTable(text, ids).Some?
    ensures OkDevices(ids, ParseTable(text, ids).value) && ParseTable(text, ids).value != []
  {
    hide ParseDevice, OkDevice;
    var p := |PREFIX|;
    ParsedDevicesOk(text, p, ids, []);
    var (d, next) := ParseDevice(text, p, ids, []).value;
    ParsedDeviceOk(text, p, ids, []);
    assert [] + [d] == [d];
    assert ParseDevices(text, p, ids, []) == ParseDevices(text, next, ids, [d]);
    ParsedDevicesOk(text, next, ids, [d]);
  }

  // ---- what add and del do to the list ----

  /** A parsed description is appended as a new device, or its first partition joins the
      device that is already there. */
  ghost function Added(ids: seq<MtdId>, devs: seq<Device>, description: string): seq<Device> {
    var parsed := ParseDevice(description, 0, ids, devs);
    if parsed.None? then devs else
    var dev := parsed.value.0;
    var have := FindDevice(devs, dev.id.kind, dev.id.num);
    if have.None? then devs + [dev] else Joined(devs, have.value, dev.parts)
  }

  ghost function Joined(devs: seq<Device>, d: nat, parts: seq<Part>): seq<Device>
    requires d < |devs|
  {
    if CanJoin(devs, d, parts) then
      var ps := devs[d].parts;
      devs[d := Device(devs[d].id, InsertSorted(ps, Resolve(devs[d].id, parts[0])).value, |ps| + 1)]
    else devs
  }

  ghost predicate CanJoin(devs: seq<Device>, d: nat, parts: seq<Part>)
    requires d < |devs|
  {
    && parts != []
    && Fits(devs[d].id, Resolve(devs[d].id, parts[0]))
    && InsertSorted(devs[d].parts, Resolve(devs[d].id, parts[0])).Some?
  }

  ghost predicate WouldAdd(ids: seq<MtdId>, devs: seq<Device>, description: string) {
    var parsed := ParseDevice(description, 0, ids, devs);
    parsed.Some? &&
    var dev := parsed.value.0;
    var have := FindDevice(devs, dev.id.kind, dev.id.num);
    have.None? || CanJoin(devs, have.value, dev.parts)
  }

  /** A device goes with its last partition. */
  function Deleted(devs: seq<Device>, d: nat, k: nat): seq<Device>
    requires d < |devs| && k < |devs[d].parts|
  {
    var ps := devs[d].parts;
    if |ps| == 1 then devs[..d] + devs[d + 1..]
    else devs[d := Device(devs[d].id, RemoveAt(ps, k), |ps| - 1)]
  }

  // ---- finding a partition from what a user typed ----

  /** A partition someone asked for: device, position, and its number as an 8-bit value. */
  datatype Found = Found(dev: nat, part: nat, num: nat)

  function NameIndex(ps: seq<Part>, name: string): (r: Option<nat>)
    ensures r.Some? ==> r.value < |ps| && ps[r.value].name == name
    ensures r.None? ==> forall j :: 0 <= j < |ps| ==> ps[j].name != name
  {
    if ps == [] then None
    else if ps[0].name == name then Some(0)
    else
      var r := NameIndex(ps[1..], name);
      if r.None? then None else Some(r.value + 1)
  }

  /** The first partition of that name from device d on. */
  function FirstNamed(devs: seq<Device>, d: nat, name: string): (r: Option<Found>)
    requires d <= |devs|
    ensures r.Some? ==> r.value.dev < |devs| && r.value.part < |devs[r.value.dev].parts|
    ensures r.Some? ==> devs[r.value.dev].parts[r.value.part].name == name && r.value.num == r.value.part % 256
    ensures r.None? ==> forall i, j :: d <= i < |devs| && 0 <= j < |devs[i].parts| ==> devs[i].parts[j].name != name
    decreases |devs| - d
  {
    if d == |devs| then None
    else
      var k := NameIndex(devs[d].parts, name);
      if k.Some? then Some(Found(d, k.value, k.value % 256)) else FirstNamed(devs, d + 1, name)
  }

  /** By name, otherwise by `<device><number>,<partition>`, both numbers cut to 8 bits. */
  function Lookup(devs: seq<Device>, id: string): (r: Option<Found>)
    ensures r.Some? ==>
              r.value.dev < |devs| && r.value.part < |devs[r.value.dev].parts|
              && r.value.num == r.value.part % 256
  {
    var named := FirstNamed(devs, 0, id);
    if named.Some? then named else
    var head := MtdIdParse(id);
    if head.None? || CharAt(id, head.value.2) != ',' || head.value.2 + 1 >= |id| then None else
    var (n, q) := Strtoul(id, head.value.2 + 1);
    var d := FindDevice(devs, head.value.0, head.value.1);
    if CharAt(id, q) != NUL || d.None? || n % 256 >= |devs[d.value].parts| then None
    else Some(Found(d.value, n % 256, n % 256))
  }

  lemma {:induction false} NameIndexIs(ps: seq<Part>, name: string, k: nat)
    requires k < |ps| && ps[k].name == name && forall j :: 0 <= j < k ==> ps[j].name != name
    ensures NameIndex(ps, name) == Some(k)
  {
    if k > 0 {
      assert ps[0].name != name;
      assert forall j :: 0 <= j < k - 1 ==> ps[1..][j] == ps[j + 1];
      NameIndexIs(ps[1..], name, k - 1);
    }
  }

  function TypeName(kind: DevType): string {
    match kind
    case NAND => "nand"
    case ONENAND => "onenand"
    case NOR => "nor"
  }

  /** The text current_save writes: `%s%d,%d`. */
  function PartitionText(kind: DevType, num: nat, part: nat): string {
    TypeName(kind) + Dec(num) + [','] + Dec(part)
  }

  lemma PartitionPieces(kind: DevType, num: nat, part: nat)
    ensures var s, a := PartitionText(kind, num, part), |TypeName(kind)|;
            && StartsAt(s, 0, TypeName(kind)) && At(s, a, Dec(num))
            && CharAt(s, a + |Dec(num)|) == ','
            && At(s, a + |Dec(num)| + 1, Dec(part)) && |s| == a + |Dec(num)| + 1 + |Dec(part)|
  {
    hide Dec, At, TypeName;
    var s, a, b := PartitionText(kind, num, part), TypeName(kind), Dec(num);
    assert s == a + b + [','] + Dec(part);
    AtWhole(s);
    AtFour(s, 0, a, b, [','], Dec(part));
    AtSlice(s, 0, a, b + ([','] + Dec(part)));
  }

  lemma AtWhole(s: string)
    ensures At(s, 0, s)
  {
    assert s[0..0 + |s|] == s;
  }

  lemma NumberThere(s: string, a: nat, num: nat)
    requires num < 256 && At(s, a, Dec(num)) && CharAt(s, a + |Dec(num)|) == ','
    ensures Strtoul(s, a) == (num, a + |Dec(num)|) && '0' <= CharAt(s, a) <= '9' && |Dec(num)| > 0
    ensures a + |Dec(num)| <= |s|
  {
    AtChar(s, a, Dec(num), 0);
    DecHead(num);
    assert num == 0 ==> |Dec(num)| == 1;
    StrtoulOfDec(s, a, num);
  }

  lemma HeadParses(s: string, kind: DevType, num: nat)
    requires num < 256 && StartsAt(s, 0, TypeName(kind)) && At(s, |TypeName(kind)|, Dec(num))
    requires CharAt(s, |TypeName(kind)| + |Dec(num)|) == ','
    ensures MtdIdParse(s) == Some((kind, num, |TypeName(kind)| + |Dec(num)|))
  {
    hide Strtoul, Dec, At;
    var a := |TypeName(kind)|;
    NumberThere(s, a, num);
    assert s[0..a] == TypeName(kind);
    assert s[0] == TypeName(kind)[0] && s[1] == TypeName(kind)[1] && s[2] == TypeName(kind)[2];
  }

  /** The saved text finds the partition it was made from, unless some partition has
      that very text as its name. */
  lemma PartitionTextFinds(ids: seq<MtdId>, devs: seq<Device>, i: nat, part: nat)
    requires OkDevices(ids, devs) && i < |devs| && part < |devs[i].parts| && part < 256 && devs[i].id.num < 256
    requires FirstNamed(devs, 0, PartitionText(devs[i].id.kind, devs[i].id.num, part)) == None
    ensures Lookup(devs, PartitionText(devs[i].id.kind, devs[i].id.num, part)) == Some(Found(i, part, part))
  {
    hide OkDevices, FirstNamed, MtdIdParse, Strtoul, FindDevice, StartsAt, At, PartitionText, Dec, TypeName;
    var kind, num := devs[i].id.kind, devs[i].id.num;
    var s := PartitionText(kind, num, part);
    FoundAt(ids, devs, i);
    PartitionPieces(kind, num, part);
    HeadParses(s, kind, num);
    var p := |TypeName(kind)| + |Dec(num)| + 1;
    EndOfText(s);
    ZeroIsShort(part);
    StrtoulOfDec(s, p, part);
  }

  /** Different partitions have different texts. */
  lemma TextInjective(kind: DevType, num: nat, part: nat, kind': DevType, num': nat, part': nat)
    requires num < 256 && part < 256 && num' < 256 && part' < 256
    requires PartitionText(kind, num, part) == PartitionText(kind', num', part')
    ensures kind == kind' && num == num' && part == part'
  {
    hide MtdIdParse, Strtoul, StartsAt, At, PartitionText, Dec, TypeName;
    var s := PartitionText(kind, num, part);
    PartitionPieces(kind, num, part);
    PartitionPieces(kind', num', part');
    HeadParses(s, kind, num);
    HeadParses(s, kind', num');
    EndOfText(s);
    ZeroIsShort(part);
    ZeroIsShort(part');
    StrtoulOfDec(s, |TypeName(kind)| + |Dec(num)| + 1, part);
    StrtoulOfDec(s, |TypeName(kind)| + |Dec(num)| + 1, part');
  }

  lemma EndOfText(s: string)
    ensures CharAt(s, |s|) == NUL && HexValue(NUL) == -1 && CharAt(s, |s| + 1) == NUL
  {
  }

  lemma ZeroIsShort(n: nat)
    ensures n == 0 ==> |Dec(n)| == 1
  {
  }
}

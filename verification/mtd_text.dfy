/** The text form of a partition table: what the printer writes and what the
    parser makes of a string. Strings are C strings: past the end they read NUL. */
module MtdText {
  import opened MtdTypes
  import opened MtdBlocks
  import opened MtdLists
  import opened Options

  const NUL: char := '\0'

  function CharAt(s: string, p: nat): char { if p < |s| then s[p] else NUL }

  // ---- numbers ----

  function HexValue(c: char): int {
    if '0' <= c <= '9' then c as int - '0' as int
    else if 'a' <= c <= 'f' then c as int - 'a' as int + 10
    else if 'A' <= c <= 'F' then c as int - 'A' as int + 10
    else -1
  }

  /** simple_strtoul's loop: takes digits below the base, result modulo 2^32. */
  function Digits(s: string, p: nat, base: int, acc: u32): (r: (u32, nat))
    requires p <= |s|
    ensures p <= r.1 <= |s| && (r.1 == p ==> r.0 == acc)
    decreases |s| - p
  {
    if p < |s| && 0 <= HexValue(s[p]) < base
    then Digits(s, p + 1, base, Wrap(acc * base + HexValue(s[p])))
    else (acc, p)
  }

  /** simple_strtoul(.., 0): 0x is hexadecimal, a leading 0 octal, otherwise decimal. */
  function Strtoul(s: string, p: nat): (r: (u32, nat))
    requires p <= |s|
    ensures p <= r.1 <= |s| && (r.1 == p ==> r.0 == 0)
  {
    if CharAt(s, p) == '0' then
      if CharAt(s, p + 1) == 'x' && HexValue(CharAt(s, p + 2)) >= 0
      then Digits(s, p + 2, 16, 0)
      else Digits(s, p + 1, 8, 0)
    else Digits(s, p, 10, 0)
  }

  /** The shifts fall through from g to m to k. */
  function MemsizeParse(s: string, p: nat): (r: (u32, nat))
    requires p <= |s|
    ensures p <= r.1 <= |s| && (r.0 != 0 ==> p < r.1)
  {
    var (n, q) := Strtoul(s, p);
    match CharAt(s, q)
    case 'G' => (Wrap(Wrap(Wrap(n * 1024) * 1024) * 1024), q + 1)
    case 'g' => (Wrap(Wrap(Wrap(n * 1024) * 1024) * 1024), q + 1)
    case 'M' => (Wrap(Wrap(n * 1024) * 1024), q + 1)
    case 'm' => (Wrap(Wrap(n * 1024) * 1024), q + 1)
    case 'K' => (Wrap(n * 1024), q + 1)
    case 'k' => (Wrap(n * 1024), q + 1)
    case _ => (n, q)
  }

  function DigitChar(d: nat): (c: char)
    requires d < 10
    ensures HexValue(c) == d && '0' <= c <= '9' && (c == '0' <==> d == 0)
  {
    d as char + '0'
  }

  function Dec(n: nat): (t: string)
    ensures t != []
  {
    if n < 10 then [DigitChar(n)] else Dec(n / 10) + [DigitChar(n % 10)]
  }

  const GB: u32 := 0x4000_0000
  const MB: u32 := 0x10_0000
  const KB: u32 := 0x400

  function MemsizeFormat(n: u32): string {
    if n % GB == 0 then Dec(n / GB) + ['g']
    else if n % MB == 0 then Dec(n / MB) + ['m']
    else if n % KB == 0 then Dec(n / KB) + ['k']
    else Dec(n)
  }

  /** %0<width>lx */
  function Hex(n: nat, width: nat): string {
    if width == 0 then [] else Hex(n / 16, width - 1) + ["0123456789abcdef"[n % 16]]
  }

  // ---- the printer ----

  /** One partition; `expected` is where it would start without a gap. */
  function PartText(expected: int, p: Part): string {
    MemsizeFormat(p.size) + OffsetText(expected, p) + NameText(p) + RoText(p)
  }

  function OffsetText(expected: int, p: Part): string {
    if p.offset == expected then [] else ['@'] + MemsizeFormat(p.offset)
  }

  function NameText(p: Part): string { if p.autoName then [] else ['('] + p.name + [')'] }

  function RoText(p: Part): string { if p.readOnly then "ro" else [] }

  /** A separator only when something follows. */
  function Separator(c: char, left: nat): string { if left > 1 then [c] else [] }

  function PartsText(parts: seq<Part>, expected: int): string {
    if parts == [] then []
    else
      PartText(expected, parts[0]) + Separator(',', |parts|)
      + PartsText(parts[1..], Wrap(parts[0].offset + parts[0].size))
  }

  function DevText(d: Device): string { d.id.name + [':'] + PartsText(d.parts, 0) }

  function DevsText(devs: seq<Device>): string {
    if devs == [] then []
    else DevText(devs[0]) + Separator(';', |devs|) + DevsText(devs[1..])
  }

  const PREFIX: string := "mtdparts="

  function TableText(devs: seq<Device>): string {
    if devs == [] then [] else PREFIX + DevsText(devs)
  }

  // ---- the parser ----

  /** strchr: the first c at or behind p, before any NUL. */
  function IndexOf(s: string, p: nat, c: char): (r: Option<nat>)
    requires p <= |s|
    ensures r.Some? ==>
              p <= r.value < |s| && s[r.value] == c && forall i :: p <= i < r.value ==> s[i] != c && s[i] != NUL
    decreases |s| - p
  {
    if p == |s| then None else if s[p] == c then Some(p) else if s[p] == NUL then None else IndexOf(s, p + 1, c)
  }

  datatype Parsed = Parsed(part: Part, next: nat)

  function AutoName(size: u32, offset: u32): string {
    "0x" + Hex(size, 8) + "@0x" + Hex(offset, 8)
  }

  function SizePart(s: string, p: nat): (r: Option<(u32, nat)>)
    requires p <= |s|
    ensures r.Some? ==> p < r.value.1 <= |s|
  {
    if CharAt(s, p) == '-' then Some((SIZE_REMAINING, p + 1))
    else
      var n := MemsizeParse(s, p);
      if n.0 < MIN_PART_SIZE then None else Some(n)
  }

  function OffsetPart(s: string, p: nat): (r: (u32, nat))
    requires p <= |s|
    ensures p <= r.1 <= |s|
  {
    if CharAt(s, p) == '@' then MemsizeParse(s, p + 1) else (OFFSET_NOT_SPECIFIED, p)
  }

  /** None is an error; Some((None, _)) is a partition without a name of its own. */
  function NamePart(s: string, p: nat): (r: Option<(Option<string>, nat)>)
    requires p <= |s|
    ensures r.Some? ==> p <= r.value.1 <= |s|
  {
    if CharAt(s, p) != '(' then Some((None, p))
    else
      var close := IndexOf(s, p + 1, ')');
      if close.None? || close.value == p + 1 then None
      else Some((Some(s[p + 1..close.value]), close.value + 1))
  }

  function RoPart(s: string, p: nat): (r: (bool, nat))
    requires p <= |s|
    ensures p <= r.1 <= |s|
  {
    if CharAt(s, p) == 'r' && CharAt(s, p + 1) == 'o' then (true, p + 2) else (false, p)
  }

  function ParsePart(s: string, p: nat): (r: Option<Parsed>)
    requires p <= |s|
    ensures r.Some? ==> p < r.value.next <= |s|
  {
    var size := SizePart(s, p);
    if size.None? then None else
    var (offset, p2) := OffsetPart(s, size.value.1);
    var name := NamePart(s, p2);
    if name.None? then None else
    var (ro, p4) := RoPart(s, name.value.1);
    var c := CharAt(s, p4);
    if (c == ',' && size.value.0 == SIZE_REMAINING) || (c != ',' && c != ';' && c != NUL) then None
    else
      var part := Part(size.value.0, offset,
                       if name.value.0.Some? then name.value.0.value else AutoName(size.value.0, offset),
                       name.value.0.None?, ro);
      Some(Parsed(part, if c == ',' then p4 + 1 else p4))
  }

  /** The loop of device_parse: fills in elided offsets from the running offset and validates. */
  ghost function ParseParts(s: string, p: nat, id: MtdId, offset: u32): (r: Option<(seq<Part>, nat)>)
    requires p <= |s|
    ensures r.Some? ==> p <= r.value.1 <= |s| && (CharAt(s, r.value.1) == NUL || CharAt(s, r.value.1) == ';')
    ensures r.Some? ==> forall q :: q in r.value.0 ==> Fits(id, q)
    decreases |s| - p
  {
    if CharAt(s, p) == NUL || CharAt(s, p) == ';' then Some(([], p)) else
    var parsed := ParsePart(s, p);
    if parsed.None? then None else
    var placed := Place(parsed.value.part, offset);
    var valid := Validated(id, placed);
    if valid.None? then None else
    var rest := ParseParts(s, parsed.value.next, id, Wrap(valid.value.offset + valid.value.size));
    if rest.None? then None else Some(([valid.value] + rest.value.0, rest.value.1))
  }

  function Place(p: Part, offset: u32): Part {
    if p.offset == OFFSET_NOT_SPECIFIED then p.(offset := offset) else p
  }

  function FindId(ids: seq<MtdId>, name: string): Option<MtdId> {
    if ids == [] then None else if ids[0].name == name then Some(ids[0]) else FindId(ids[1..], name)
  }

  function FindDevice(devs: seq<Device>, kind: DevType, num: nat): (r: Option<nat>)
    ensures r.Some? ==> r.value < |devs| && devs[r.value].id.kind == kind && devs[r.value].id.num == num
    ensures r.None? ==> forall i :: 0 <= i < |devs| ==> !(devs[i].id.kind == kind && devs[i].id.num == num)
  {
    if devs == [] then None
    else if devs[0].id.kind == kind && devs[0].id.num == num then Some(0)
    else
      var r := FindDevice(devs[1..], kind, num);
      if r.None? then None else Some(r.value + 1)
  }

  /** FindDevice takes the first match. */
  lemma {:induction false} FoundFirst(devs: seq<Device>, kind: DevType, num: nat, i: nat)
    requires i < |devs|
    ensures devs[i].id.kind == kind && devs[i].id.num == num ==>
              FindDevice(devs, kind, num).Some? && FindDevice(devs, kind, num).value <= i
    ensures !(devs[i].id.kind == kind && devs[i].id.num == num) ==> FindDevice(devs, kind, num) != Some(i)
  {
    if i > 0 && !(devs[0].id.kind == kind && devs[0].id.num == num) {
      FoundFirst(devs[1..], kind, num, i - 1);
    }
  }

  /** Where new partitions go by default: behind the last one of an existing device. */
  function DefaultOffset(devs: seq<Device>, id: MtdId): u32 {
    var d := FindDevice(devs, id.kind, id.num);
    if d.None? || devs[d.value].parts == [] then 0
    else
      var ps := devs[d.value].parts;
      Wrap(ps[|ps| - 1].offset + ps[|ps| - 1].size)
  }

  ghost function ParseDevice(s: string, p: nat, ids: seq<MtdId>, devs: seq<Device>): (r: Option<(Device, nat)>)
    requires p <= |s|
    ensures r.Some? ==> p < r.value.1 <= |s|
  {
    var colon := IndexOf(s, p, ':');
    if colon.None? then None else
    var id := FindId(ids, s[p..colon.value]);
    if id.None? then None else
    var c := CharAt(s, colon.value + 1);
    if c == NUL || c == ';' then None else
    var parts := ParseParts(s, colon.value + 1, id.value, DefaultOffset(devs, id.value));
    if parts.None? then None else
    var sorted := InsertAll([], parts.value.0);
    if sorted.None? then None else
    var next := parts.value.1;
    Some((Device(id.value, sorted.value, |sorted.value|), if CharAt(s, next) == ';' then next + 1 else next))
  }

  /** The loop of parse_mtdparts; None is the error exit, which leaves no devices. */
  ghost function ParseDevices(s: string, p: nat, ids: seq<MtdId>, devs: seq<Device>): (r: Option<seq<Device>>)
    requires p <= |s|
    decreases |s| - p
  {
    if CharAt(s, p) == NUL then Some(devs) else
    var d := ParseDevice(s, p, ids, devs);
    if d.None? || FindDevice(devs, d.value.0.id.kind, d.value.0.id.num).Some? then None
    else ParseDevices(s, d.value.1, ids, devs + [d.value.0])
  }

  ghost function ParseTable(s: string, ids: seq<MtdId>): Option<seq<Device>> {
    if !(PREFIX <= s) || CharAt(s, |PREFIX|) == NUL then None
    else ParseDevices(s, |PREFIX|, ids, [])
  }
}

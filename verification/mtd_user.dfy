/** What users write: sizes with any unit and in any base, partitions that fill the device up, and
    where `mtdparts add` puts a partition. */
module MtdUser {
  import opened MtdTypes
  import opened MtdBlocks
  import opened MtdLists
  import opened MtdText
  import opened MtdRoundTrip
  import opened MtdTable
  import opened Options
  import opened Numbers

  // ---- sizes ----

  /** How many bytes a unit letter stands for. */
  function Unit(c: char): nat {
    match c
    case 'G' => 1073741824
    case 'g' => 1073741824
    case 'M' => 1048576
    case 'm' => 1048576
    case 'K' => 1024
    case 'k' => 1024
    case _ => 1
  }

  /** A number with a unit is so many bytes, modulo 2^32, and the letter is passed over. */
  lemma SizeWithUnit(s: string, p: nat, n: u32, q: nat)
    requires p <= |s| && Strtoul(s, p) == (n, q)
    ensures var unit := Unit(CharAt(s, q));
            MemsizeParse(s, p) == ((n * unit) % 0x1_0000_0000, if unit > 1 then q + 1 else q)
  {
    hide Strtoul, Wrap;
    Shift(n);
    Shift(n * 1024);
    Shift(n * 1024 * 1024);
    WrapSmall(n);
    assert Wrap(n * 1048576) == Wrap(n * 1024 * 1024) && Wrap(n * 1073741824) == Wrap(n * 1024 * 1024 * 1024);
    WrapIs(n * Unit(CharAt(s, q)));
  }

  lemma WrapIs(x: int)
    ensures Wrap(x) == x % 0x1_0000_0000
  {
  }

  lemma Shift(x: nat)
    ensures Wrap(Wrap(x) * 1024) == Wrap(x * 1024)
  {
    var q := x / WORD;
    assert x * 1024 == (x % WORD) * 1024 + q * 1024 * WORD;
    var y := (x % WORD) * 1024;
    UniqueMod(x * 1024, y / WORD + q * 1024, y % WORD, WORD);
  }

  lemma DigitValues(d: nat)
    requires d < 16
    ensures HexValue("0123456789abcdef"[d]) == HexValue("0123456789ABCDEF"[d]) == d
  {
  }

  function Power16(k: nat): nat { if k == 0 then 1 else 16 * Power16(k - 1) }

  /** Digits that have been printed are read back. */
  lemma {:induction false} HexDigits(s: string, p: nat, n: u32, width: nat)
    requires p <= |s| && At(s, p, Hex(n, width)) && n < Power16(width)
    ensures |Hex(n, width)| == width && p + width <= |s| && Digits(s, p, 16, 0) == Digits(s, p + width, 16, n)
    decreases width
  {
    hide At, HexValue;
    if width > 0 {
      var last := ["0123456789abcdef"[n % 16]];
      AtSplit(s, p, Hex(n / 16, width - 1), last);
      HexDigits(s, p, n / 16, width - 1);
      AtChar(s, p + width - 1, last, 0);
      DigitValues(n % 16);
      AtEnd(s, p + width - 1, last);
      WrapSmall(n);
    } else {
      AtEnd(s, p, "");
    }
  }

  lemma AtEnd(s: string, p: nat, t: string)
    requires At(s, p, t)
    ensures p + |t| <= |s|
  {
  }

  lemma EightDigits()
    ensures Power16(8) == 0x1_0000_0000
  {
    assert Power16(4) == 0x1_0000;
  }

  /** 0x and eight digits. */
  lemma HexNumber(s: string, p: nat, n: u32)
    requires At(s, p, "0x" + Hex(n, 8)) && HexValue(CharAt(s, p + 10)) < 0
    ensures p + 10 <= |s| && Strtoul(s, p) == (n, p + 10)
  {
    hide At, Hex, HexValue;
    EightDigits();
    AtSplit(s, p, "0x", Hex(n, 8));
    AtChar(s, p, "0x", 0);
    AtChar(s, p, "0x", 1);
    AtEnd(s, p, "0x");
    HexDigits(s, p + 2, n, 8);
    FirstDigit(s, p + 2, n);
    NoDigitAtEnd(s, p + 10, n);
  }

  lemma FirstDigit(s: string, p: nat, n: u32)
    requires At(s, p, Hex(n, 8)) && |Hex(n, 8)| == 8
    ensures HexValue(CharAt(s, p)) >= 0
  {
    AtChar(s, p, Hex(n, 8), 0);
    HexStart(n, 8);
  }

  lemma {:induction false} HexStart(n: nat, width: nat)
    requires width > 0
    ensures |Hex(n, width)| == width && HexValue(Hex(n, width)[0]) >= 0
    decreases width
  {
    hide HexValue;
    DigitValues(n % 16);
    if width > 1 { HexStart(n / 16, width - 1); }
  }

  lemma NoDigitAtEnd(s: string, p: nat, n: u32)
    requires p <= |s| && HexValue(CharAt(s, p)) < 0
    ensures Digits(s, p, 16, n) == (n, p)
  {
  }

  /** An automatic name says size and offset. */
  lemma AutoNameSays(size: u32, offset: u32)
    ensures var name := AutoName(size, offset);
            && |name| == 21 && Strtoul(name, 0) == (size, 10) && name[10] == '@' && Strtoul(name, 11) == (offset, 21)
            && CharAt(name, 0) == CharAt(name, 11) == '0' && CharAt(name, 1) == CharAt(name, 12) == 'x'
  {
    hide Hex, Strtoul;
    var name := AutoName(size, offset);
    var a, b := Hex(size, 8), Hex(offset, 8);
    HexStart(size, 8);
    HexStart(offset, 8);
    assert name[0..10] == "0x" + a && name[11..21] == "0x" + b;
    HexNumber(name, 0, size);
    HexNumber(name, 11, offset);
  }

  // ---- partitions that fill the device up ----

  /** `-`, an offset where there is a gap, a name and a flag. */
  function FillUpText(expected: int, part: Part): string {
    "-" + OffsetText(expected, part) + NameText(part) + RoText(part)
  }

  /** As the last of a list it ends where the device ends: if it is not empty and of whole blocks,
      and otherwise all of the text is refused. */
  lemma FillUpParses(s: string, p: nat, end: nat, id: MtdId, expected: u32, part: Part)
    requires p <= |s| && At(s, p, FillUpText(expected, part)) && end == p + |FillUpText(expected, part)|
    requires NameOk(part) && ListEnds(CharAt(s, end)) && part.offset != OFFSET_NOT_SPECIFIED
    ensures ParseParts(s, p, id, expected) ==
            if part.offset < id.size && WholeBlocks(id.geometry, part.offset, id.size) then
              Some(([Part(id.size - part.offset, part.offset,
                          if part.autoName then AutoName(0xFFFF_FFFF, RawOffset(expected, part)) else part.name,
                          part.autoName, part.readOnly)], end))
            else None
  {
    hide At, WholeBlocks, AutoName, RawOffset, ParsePart, FillUpText, ParseParts, Place, Raw, Resolve, Fits;
    var asked := part.(size := SIZE_REMAINING);
    SameText(expected, part, asked);
    FillUpPart(s, p, end, expected, asked);
    FillUpPlaced(expected, asked);
    ResolveIs(id, Place(Raw(expected, asked), expected));
    FillUpStarts(s, p, expected, part);
    OnePart(s, p, end, id, expected, Raw(expected, asked));
  }

  lemma FillUpPlaced(expected: u32, asked: Part)
    requires asked.offset != OFFSET_NOT_SPECIFIED
    ensures Place(Raw(expected, asked), expected)
         == asked.(name := if asked.autoName then AutoName(asked.size, RawOffset(expected, asked)) else asked.name)
  {
    hide AutoName;
  }

  lemma FillUpStarts(s: string, p: nat, expected: u32, part: Part)
    requires At(s, p, FillUpText(expected, part))
    ensures CharAt(s, p) == '-'
  {
    hide OffsetText, NameText, RoText;
    AtChar(s, p, FillUpText(expected, part), 0);
  }

  lemma OnePart(s: string, p: nat, end: nat, id: MtdId, expected: u32, raw: Part)
    requires p <= |s| && CharAt(s, p) == '-' && end <= |s| && ListEnds(CharAt(s, end))
    requires ParsePart(s, p) == Some(Parsed(raw, end))
    ensures ParseParts(s, p, id, expected) ==
            if Validated(id, Place(raw, expected)).Some?
            then Some(([Validated(id, Place(raw, expected)).value], end)) else None
  {
    hide ParsePart, Validated, Place;
    var valid := Validated(id, Place(raw, expected));
    if valid.Some? {
      NoParts(s, end, id, Wrap(valid.value.offset + valid.value.size));
      assert [valid.value] + [] == [valid.value];
    }
  }

  lemma SameText(expected: int, part: Part, asked: Part)
    requires asked == part.(size := asked.size)
    ensures FillUpText(expected, part) == FillUpText(expected, asked)
    ensures RawOffset(expected, part) == RawOffset(expected, asked)
  {
  }

  /** Followed by another one it is refused. */
  lemma FillUpPart(s: string, p: nat, end: nat, expected: int, part: Part)
    requires p <= |s| && At(s, p, FillUpText(expected, part)) && end == p + |FillUpText(expected, part)|
    requires NameOk(part) && Ends(CharAt(s, end)) && part.size == SIZE_REMAINING
    ensures end <= |s|
    ensures ParsePart(s, p) == if CharAt(s, end) == ',' then None else Some(Parsed(Raw(expected, part), end))
  {
    hide At, FillUpText, OffsetText, NameText, RoText, OffsetPart, NamePart, RoPart, RawOffset, AutoName, MemsizeParse;
    FillUpPieces(s, p, expected, part);
    var p1 := p + 1;
    var p2 := p1 + |OffsetText(expected, part)|;
    var p3 := p2 + |NameText(part)|;
    AtChar(s, p, "-", 0);
    OffsetRoundTrip(s, p1, expected, part);
    NameRoundTrip(s, p2, part);
    RoRoundTrip(s, p3, part);
  }

  lemma FillUpPieces(s: string, p: nat, expected: int, part: Part)
    requires At(s, p, FillUpText(expected, part)) && Ends(CharAt(s, p + |FillUpText(expected, part)|))
    ensures var p1 := p + 1;
            var p2 := p1 + |OffsetText(expected, part)|;
            var p3 := p2 + |NameText(part)|;
            && At(s, p, "-") && At(s, p1, OffsetText(expected, part)) && CharAt(s, p2) in {'(', 'r', ',', ';', NUL}
            && At(s, p2, NameText(part)) && CharAt(s, p3) != '('
            && At(s, p3, RoText(part)) && p3 + |RoText(part)| == p + |FillUpText(expected, part)| <= |s|
  {
    hide At;
    AtFour(s, p, "-", OffsetText(expected, part), NameText(part), RoText(part));
    AtEnd(s, p, FillUpText(expected, part));
  }

  // ---- mtdparts add ----

  /** Behind the last partition of the device, or at 0 of a device that is not on the list. */
  function Behind(devs: seq<Device>, id: MtdId): nat {
    var have := FindDevice(devs, id.kind, id.num);
    if have.None? || devs[have.value].parts == [] then 0
    else
      var ps := devs[have.value].parts;
      ps[|ps| - 1].offset + ps[|ps| - 1].size
  }

  /** The description that `mtdparts add` puts together, with the offset where it is not the end. */
  function Description(devs: seq<Device>, id: MtdId, part: Part): string {
    id.name + [':'] + PartText(Behind(devs, id), part)
  }

  /** The partition with the name it has after parsing. */
  function Typed(devs: seq<Device>, id: MtdId, part: Part): Part {
    part.(name := if part.autoName then AutoName(part.size, RawOffset(Behind(devs, id), part)) else part.name)
  }

  lemma BehindFits(ids: seq<MtdId>, devs: seq<Device>, id: MtdId)
    requires OkIds(ids) && OkDevices(ids, devs) && id in ids
    ensures DefaultOffset(devs, id) == Behind(devs, id) < WORD
    ensures var have := FindDevice(devs, id.kind, id.num);
            have.Some? ==>
              && devs[have.value].id == id && devs[have.value].numParts == |devs[have.value].parts| > 0
              && Sorted(devs[have.value].parts) && OneAtZero(devs[have.value].parts)
              && forall q :: q in devs[have.value].parts ==> q.offset < Behind(devs, id)
  {
    hide WholeBlocks;
    var have := FindDevice(devs, id.kind, id.num);
    if have.Some? {
      var d := devs[have.value];
      assert d in devs;
      assert OkDevice(ids, d);
      LastFits(ids, d);
      SameId(ids, d.id, id);
    }
  }

  lemma SameId(ids: seq<MtdId>, a: MtdId, b: MtdId)
    requires OkIds(ids) && a in ids && b in ids && SameKey(a, b)
    ensures a == b
  {
  }

  lemma LastFits(ids: seq<MtdId>, d: Device)
    requires OkDevice(ids, d)
    ensures var last := d.parts[|d.parts| - 1];
            && last.offset + last.size < WORD && last.size > 0
            && forall q :: q in d.parts ==> q.offset <= last.offset
  {
    hide WholeBlocks;
    var last := d.parts[|d.parts| - 1];
    assert last in d.parts;
    assert Fits(d.id, last);
  }

  /** The description is parsed to that partition, at that place. */
  lemma DescriptionParsed(ids: seq<MtdId>, devs: seq<Device>, id: MtdId, part: Part)
    requires OkIds(ids) && OkDevices(ids, devs) && id in ids && FirstOfName(ids, id)
    requires NameOk(part) && Fits(id, part) && part.size >= MIN_PART_SIZE
    ensures var text := Description(devs, id, part);
            ParseDevice(text, 0, ids, devs) == Some((Device(id, [Typed(devs, id, part)], 1), |text|))
  {
    hide OkIds, OkDevices, WholeBlocks, Fits, FirstOfName, PartText, AutoName, RawOffset, Reparsed, ParseParts, At,
      IndexOf, FindId, FindDevice, Behind, DefaultOffset, NameOk;
    var text, e := Description(devs, id, part), Behind(devs, id);
    BehindFits(ids, devs, id);
    var colon := |id.name|;
    NameAndText(ids, text, id, PartText(e, part));
    OneText(e, part);
    OneGood(id, part);
    PartsRoundTrip(text, colon + 1, |text|, id, [part], e);
    OneBack(devs, id, part);
    OneSorted(Typed(devs, id, part));
  }

  lemma NameAndText(ids: seq<MtdId>, text: string, id: MtdId, rest: string)
    requires text == id.name + [':'] + rest && FirstOfName(ids, id)
    ensures IndexOf(text, 0, ':') == Some(|id.name|) && text[0..|id.name|] == id.name
    ensures FindId(ids, text[0..|id.name|]) == Some(id)
    ensures |text| == |id.name| + 1 + |rest| && At(text, |id.name| + 1, rest)
  {
    AtWhole(text);
    ColonBehind(text, 0, id.name, rest);
  }

  lemma OneText(e: int, part: Part)
    ensures PartsText([part], e) == PartText(e, part) != [] && '0' <= PartText(e, part)[0] <= '9'
  {
    hide PartText;
    PartTextHead(e, part);
    assert [part][1..] == [];
    assert PartsText([part], e) == PartText(e, part) + [] + PartsText([], Wrap(part.offset + part.size));
  }

  lemma OneGood(id: MtdId, part: Part)
    requires NameOk(part) && Fits(id, part) && part.size >= MIN_PART_SIZE
    ensures GoodParts(id, [part]) && Reparsable([part])
  {
    hide NameOk, Fits;
  }

  lemma OneBack(devs: seq<Device>, id: MtdId, part: Part)
    ensures Reparsed([part], Behind(devs, id)) == [Typed(devs, id, part)]
  {
    hide AutoName, Behind;
    assert [part][1..] == [];
  }

  lemma OneSorted(p: Part)
    ensures InsertAll([], [p]) == Some([p])
  {
    assert [p][1..] == [] && InsertAt([], 0, p) == [p];
    assert InsertSorted([], p) == Some([p]);
    assert InsertAll([p], []) == Some([p]);
  }

  /** What `mtdparts add` makes of the table: a device that was not there gets that partition, one
      that was there gets it at its place by offset, or nothing changes when that is refused. */
  lemma AddPlaces(ids: seq<MtdId>, devs: seq<Device>, id: MtdId, part: Part)
    requires OkIds(ids) && OkDevices(ids, devs) && id in ids && FirstOfName(ids, id)
    requires NameOk(part) && Fits(id, part) && part.size >= MIN_PART_SIZE
    ensures var p, text, have := Typed(devs, id, part), Description(devs, id, part), FindDevice(devs, id.kind, id.num);
            if have.None? then Added(ids, devs, text) == devs + [Device(id, [p], 1)] && WouldAdd(ids, devs, text)
            else
              var ps := devs[have.value].parts;
              var r := InsertSorted(ps, p);
              && (WouldAdd(ids, devs, text) <==> r.Some?)
              && Added(ids, devs, text) ==
                 if r.Some? then devs[have.value := Device(id, r.value, |ps| + 1)] else devs
  {
    hide OkIds, OkDevices, Fits, FirstOfName, Description, ParseDevice, InsertSorted, FindDevice, Behind, Typed, NameOk;
    DescriptionParsed(ids, devs, id, part);
    BehindFits(ids, devs, id);
    var p := Typed(devs, id, part);
    TypedFits(devs, id, part);
  }

  lemma TypedFits(devs: seq<Device>, id: MtdId, part: Part)
    requires Fits(id, part)
    ensures var p := Typed(devs, id, part);
            p.size == part.size && p.offset == part.offset && Resolve(id, p) == p && Fits(id, p)
  {
    hide WholeBlocks, AutoName;
  }

  /** Without an offset it goes behind the last partition: it starts where that one ends, and is
      the last of the list. */
  lemma AddBehind(ids: seq<MtdId>, devs: seq<Device>, id: MtdId, d: nat, e: u32, size: u32,
                  name: string, readOnly: bool)
    requires OkIds(ids) && OkDevices(ids, devs) && id in ids && FirstOfName(ids, id)
    requires name != [] && ')' !in name && NUL !in name && size >= MIN_PART_SIZE
    requires FindDevice(devs, id.kind, id.num) == Some(d) && devs[d].parts != []
    requires e == devs[d].parts[|devs[d].parts| - 1].offset + devs[d].parts[|devs[d].parts| - 1].size
    requires Fits(id, Part(size, e, name, false, readOnly))
    ensures var ps := devs[d].parts;
            var text := id.name + ":" + MemsizeFormat(size) + ("(" + name + ")") + (if readOnly then "ro" else "");
            && WouldAdd(ids, devs, text)
            && Added(ids, devs, text) ==
               devs[d := Device(id, ps + [Part(size, e, name, false, readOnly)], |ps| + 1)]
            && forall q :: q in ps ==> q.offset < e
  {
    hide OkIds, OkDevices, Fits, FirstOfName, InsertSorted, FindDevice, Added, WouldAdd, MemsizeFormat, Behind,
      Description, Typed;
    BehindFits(ids, devs, id);
    var ps := devs[d].parts;
    BehindIs(devs, id);
    var part := Part(size, e, name, false, readOnly);
    AddPlaces(ids, devs, id, part);
    TypedText(devs, id, part);
    InsertBehind(ps, part);
  }

  lemma BehindIs(devs: seq<Device>, id: MtdId)
    requires FindDevice(devs, id.kind, id.num).Some? && devs[FindDevice(devs, id.kind, id.num).value].parts != []
    ensures var ps := devs[FindDevice(devs, id.kind, id.num).value].parts;
            Behind(devs, id) == ps[|ps| - 1].offset + ps[|ps| - 1].size
  {
  }

  lemma TypedText(devs: seq<Device>, id: MtdId, part: Part)
    requires !part.autoName && part.offset == Behind(devs, id)
    ensures Typed(devs, id, part) == part
    ensures Description(devs, id, part) ==
            id.name + ":" + MemsizeFormat(part.size) + ("(" + part.name + ")") + (if part.readOnly then "ro" else "")
  {
    hide MemsizeFormat, Behind;
    var n, m, r := "(" + part.name + ")", MemsizeFormat(part.size), if part.readOnly then "ro" else "";
    assert PartText(part.offset, part) == m + [] + n + r;
    assert id.name + [':'] + (m + [] + n + r) == id.name + ":" + m + n + r;
  }

  // ---- a table as users write it ----

  const NAND0: MtdId := MtdId(NAND, 0, 0x80_0000, "nand0", Uniform(0x2_0000))
  const TABLE: string := "mtdparts=nand0:1m(u-boot),-(rootfs)"
  const BOOT: Part := Part(0x10_0000, 0, "u-boot", false, false)
  const ROOT: Part := Part(0x70_0000, 0x10_0000, "rootfs", false, false)

  /** One megabyte for the boot loader, and the other seven for the rest. */
  lemma UserTable()
    ensures ParseTable(TABLE, [NAND0]) == Some([Device(NAND0, [BOOT, ROOT], 2)])
  {
    hide ParseParts, InsertAll, FindDevice, Fits, DefaultOffset;
    assert FindId([NAND0], "nand0") == Some(NAND0);
    UserColon();
    UserParts();
    UserSorted();
    NothingThere();
    assert PREFIX <= TABLE;
    var dev := Device(NAND0, [BOOT, ROOT], 2);
    assert ParseDevice(TABLE, 9, [NAND0], []) == Some((dev, |TABLE|));
    assert [] + [dev] == [dev];
    assert ParseDevices(TABLE, |TABLE|, [NAND0], [dev]) == Some([dev]);
  }

  lemma NothingThere()
    ensures DefaultOffset([], NAND0) == 0 && FindDevice([], NAND, 0) == None
  {
  }

  lemma UserColon()
    ensures IndexOf(TABLE, 9, ':') == Some(14) && TABLE[9..14] == "nand0" && |TABLE| == 35
  {
    hide IndexOf;
    assert TABLE[9] == 'n' && TABLE[10] == 'a' && TABLE[11] == 'n' && TABLE[12] == 'd';
    assert TABLE[13] == '0' && TABLE[14] == ':';
    assert TABLE[9..15] == "nand0:";
    assert TABLE[9..14] == TABLE[9..15][..5];
    assert "nand0" + [':'] == "nand0:";
    AtAll(TABLE, 9, "nand0" + [':']);
    IndexOfFirst(TABLE, 9, "nand0", ':');
  }

  lemma AtAll(s: string, p: nat, t: string)
    requires p + |t| <= |s| && s[p..p + |t|] == t
    ensures At(s, p, t)
  {
  }

  lemma UserSorted()
    ensures InsertAll([], [BOOT, ROOT]) == Some([BOOT, ROOT])
  {
    assert [] + [BOOT, ROOT] == [BOOT, ROOT];
    InsertAllBehind([], [BOOT, ROOT]);
  }

  lemma UserFits()
    ensures Fits(NAND0, BOOT) && WholeBlocks(NAND0.geometry, 0x10_0000, 0x80_0000)
  {
    AlignedIffWholeBlocks(NAND0.geometry, 0, 0x10_0000);
    AlignedIffWholeBlocks(NAND0.geometry, 0x10_0000, 0x80_0000);
  }

  lemma UserTexts()
    ensures PartText(0, BOOT) == "1m(u-boot)" && FillUpText(0x10_0000, ROOT) == "-(rootfs)"
  {
    assert Dec(1) == "1";
    assert MemsizeFormat(0x10_0000) == "1m";
    hide MemsizeFormat;
    assert "1m" + [] + ("(" + "u-boot" + ")") + [] == "1m(u-boot)";
    assert "-" + [] + ("(" + "rootfs" + ")") + [] == "-(rootfs)";
  }

  lemma UserPieces()
    ensures |TABLE| == 35 && TABLE[25] == ','
    ensures At(TABLE, 15, "1m(u-boot)") && At(TABLE, 26, "-(rootfs)")
  {
    assert TABLE[15] == '1' && TABLE[16] == 'm' && TABLE[17] == '(' && TABLE[18] == 'u' && TABLE[19] == '-';
    assert TABLE[20] == 'b' && TABLE[21] == 'o' && TABLE[22] == 'o' && TABLE[23] == 't' && TABLE[24] == ')';
    assert TABLE[15..25] == "1m(u-boot)";
    assert TABLE[26] == '-' && TABLE[27] == '(' && TABLE[28] == 'r' && TABLE[29] == 'o' && TABLE[30] == 'o';
    assert TABLE[31] == 't' && TABLE[32] == 'f' && TABLE[33] == 's' && TABLE[34] == ')';
    assert TABLE[26..35] == "-(rootfs)";
  }

  lemma UserParts()
    ensures ParseParts(TABLE, 15, NAND0, 0) == Some(([BOOT, ROOT], 35))
  {
    hide ParseParts, ParsePart, At, PartText, FillUpText, Validated, WholeBlocks, Place, Fits;
    UserTexts();
    UserFits();
    UserPieces();
    PartRoundTrip(TABLE, 15, 0, BOOT);
    PlacedBack(NAND0, BOOT, 0);
    Unfold(TABLE, 15, NAND0, 0);
    FillUpParses(TABLE, 26, 35, NAND0, 0x10_0000, ROOT);
    assert [BOOT] + [ROOT] == [BOOT, ROOT];
  }
}

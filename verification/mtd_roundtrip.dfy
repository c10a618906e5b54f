/** Printing a table and parsing the text gives the table back. */
module MtdRoundTrip {
  import opened MtdTypes
  import opened MtdBlocks
  import opened MtdLists
  import opened MtdText
  import opened Options

  /** t stands in s at p. */
  ghost predicate At(s: string, p: nat, t: string) {
    p + |t| <= |s| && s[p..p + |t|] == t
  }

  lemma AtSplit(s: string, p: nat, a: string, b: string)
    requires At(s, p, a + b)
    ensures At(s, p, a) && At(s, p + |a|, b)
  {
    var whole := s[p..p + |a + b|];
    assert s[p..p + |a|] == whole[..|a|];
    assert s[p + |a|..p + |a| + |b|] == whole[|a|..];
  }

  lemma AtThree(s: string, p: nat, a: string, b: string, c: string)
    requires At(s, p, a + b + c)
    ensures p + |a| + |b| + |c| <= |s| && s[p..p + |a|] == a
    ensures At(s, p, a) && At(s, p, a + b) && At(s, p + |a|, b) && At(s, p + |a| + |b|, c)
    ensures b != [] ==> CharAt(s, p + |a|) == b[0]
  {
    AtSplit(s, p, a + b, c);
    AtSplit(s, p, a, b);
    if b != [] { AtChar(s, p + |a|, b, 0); }
  }

  lemma AtChar(s: string, p: nat, t: string, i: nat)
    requires At(s, p, t) && i < |t|
    ensures CharAt(s, p + i) == t[i]
  {
    assert s[p..p + |t|][i] == s[p + i];
  }

  // ---- memsize ----

  lemma WrapSmall(n: int)
    requires 0 <= n < WORD
    ensures Wrap(n) == n
  {
  }

  lemma {:induction false} DigitsOfDec(s: string, p: nat, n: nat)
    requires At(s, p, Dec(n)) && n < WORD
    ensures Digits(s, p, 10, 0) == Digits(s, p + |Dec(n)|, 10, n)
  {
    hide At, Wrap;
    if n < 10 {
      AtChar(s, p, Dec(n), 0);
      assert Wrap(n) == n by { WrapSmall(n); }
    } else {
      var front, last := Dec(n / 10), [DigitChar(n % 10)];
      AtSplit(s, p, front, last);
      DigitsOfDec(s, p, n / 10);
      AtChar(s, p + |front|, last, 0);
      WrapSmall(n / 10 * 10 + n % 10);
    }
  }

  lemma {:induction false} DecHead(n: nat)
    ensures Dec(n)[0] == '0' <==> n == 0
    ensures '0' <= Dec(n)[0] <= '9'
  {
    if n >= 10 {
      DecHead(n / 10);
    }
  }

  /** Strtoul stops behind a decimal number that is not followed by a digit. */
  lemma StrtoulOfDec(s: string, p: nat, n: u32)
    requires At(s, p, Dec(n))
    requires !(0 <= HexValue(CharAt(s, p + |Dec(n)|)) < 10)
    requires n == 0 ==> CharAt(s, p + 1) != 'x'
    ensures Strtoul(s, p) == (n, p + |Dec(n)|)
  {
    DigitsOfDec(s, p, n);
    DecHead(n);
    AtChar(s, p, Dec(n), 0);
    assert HexValue('\0') == -1;
  }

  /** What may follow a size without a unit. */
  predicate Plain(c: char) {
    !('0' <= c <= '9') && c != 'G' && c != 'g' && c != 'M' && c != 'm' && c != 'K' && c != 'k'
  }

  /** Shifting back what the division took off loses nothing. */
  lemma ShiftsUndo(n: u32)
    ensures n % GB == 0 ==> Wrap(Wrap(Wrap(n / GB * 1024) * 1024) * 1024) == n
    ensures n % MB == 0 ==> Wrap(Wrap(n / MB * 1024) * 1024) == n
    ensures n % KB == 0 ==> Wrap(n / KB * 1024) == n
  {
    if n % GB == 0 { ShiftUndoes(n / GB, 0x40_0000, n); ShiftUndoes(n / GB * 1024, 0x1000, n); }
    if n % MB == 0 { ShiftUndoes(n / MB, 0x1000, n); }
    assert 0 <= n < WORD;
  }

  /** One shift of a value that stays below n. */
  lemma ShiftUndoes(x: nat, more: nat, n: u32)
    requires x * 1024 <= n
    ensures Wrap(x * 1024) == x * 1024
  {
    WrapSmall(x * 1024);
  }

  /** memsize_parse undoes memsize_format, for every 32-bit value. */
  lemma MemsizeRoundTrip(s: string, p: nat, n: u32)
    requires At(s, p, MemsizeFormat(n))
    requires Plain(CharAt(s, p + |MemsizeFormat(n)|))
    ensures MemsizeParse(s, p) == (n, p + |MemsizeFormat(n)|)
  {
    ShiftsUndo(n);
    hide At, Wrap, Dec, Strtoul;
    if n % GB == 0 {
      UnitRoundTrip(s, p, n / GB, 'g');
    } else if n % MB == 0 {
      UnitRoundTrip(s, p, n / MB, 'm');
    } else if n % KB == 0 {
      UnitRoundTrip(s, p, n / KB, 'k');
    } else {
      StrtoulOfDec(s, p, n);
    }
  }

  lemma UnitRoundTrip(s: string, p: nat, n: u32, unit: char)
    requires unit == 'g' || unit == 'm' || unit == 'k'
    requires At(s, p, Dec(n) + [unit])
    ensures Strtoul(s, p) == (n, p + |Dec(n)|) && CharAt(s, p + |Dec(n)|) == unit
  {
    AtSplit(s, p, Dec(n), [unit]);
    AtChar(s, p + |Dec(n)|, [unit], 0);
    assert n == 0 ==> |Dec(n)| == 1;
    StrtoulOfDec(s, p, n);
  }

  // ---- one partition ----

  /** What ends a partition definition. */
  predicate Ends(c: char) { c == ',' || c == ';' || c == NUL }

  /** A partition the printer can hand back to the parser. */
  predicate Printable(p: Part) {
    p.size >= MIN_PART_SIZE && NameOk(p)
  }

  lemma SizeRoundTrip(s: string, p: nat, n: u32)
    requires At(s, p, MemsizeFormat(n)) && Plain(CharAt(s, p + |MemsizeFormat(n)|))
    ensures SizePart(s, p) == if n < MIN_PART_SIZE then None else Some((n, p + |MemsizeFormat(n)|))
  {
    MemsizeRoundTrip(s, p, n);
    AtChar(s, p, MemsizeFormat(n), 0);
    DecHead(n / GB);
    DecHead(n / MB);
    DecHead(n / KB);
    DecHead(n);
  }

  /** The offset as the parser first sees it: absent when the printer left it out. */
  function RawOffset(expected: int, p: Part): u32 {
    if p.offset == expected then OFFSET_NOT_SPECIFIED else p.offset
  }

  lemma OffsetRoundTrip(s: string, p: nat, expected: int, part: Part)
    requires At(s, p, OffsetText(expected, part))
    requires CharAt(s, p + |OffsetText(expected, part)|) in {'(', 'r', ',', ';', NUL}
    ensures OffsetPart(s, p) == (RawOffset(expected, part), p + |OffsetText(expected, part)|)
  {
    if part.offset != expected {
      AtSplit(s, p, ['@'], MemsizeFormat(part.offset));
      AtChar(s, p, ['@'], 0);
      MemsizeRoundTrip(s, p + 1, part.offset);
    }
  }

  lemma {:induction false} IndexOfFirst(s: string, p: nat, t: string, c: char)
    requires At(s, p, t + [c]) && c !in t && NUL !in t
    ensures IndexOf(s, p, c) == Some(p + |t|)
    decreases |t|
  {
    AtChar(s, p, t + [c], 0);
    if t != [] {
      assert t + [c] == [t[0]] + (t[1..] + [c]);
      AtSplit(s, p, [t[0]], t[1..] + [c]);
      IndexOfFirst(s, p + 1, t[1..], c);
    }
  }

  lemma NameRoundTrip(s: string, p: nat, part: Part)
    requires At(s, p, NameText(part)) && Printable(part)
    requires CharAt(s, p + |NameText(part)|) != '('
    ensures NamePart(s, p) == Some((if part.autoName then None else Some(part.name), p + |NameText(part)|))
  {
    if !part.autoName {
      var t := part.name + [')'];
      assert NameText(part) == ['('] + t;
      AtSplit(s, p, ['('], t);
      AtChar(s, p, ['('], 0);
      IndexOfFirst(s, p + 1, part.name, ')');
      AtSplit(s, p + 1, part.name, [')']);
    }
  }

  lemma RoRoundTrip(s: string, p: nat, part: Part)
    requires At(s, p, RoText(part)) && Ends(CharAt(s, p + |RoText(part)|))
    ensures RoPart(s, p) == (part.readOnly, p + |RoText(part)|)
  {
    if part.readOnly {
      AtChar(s, p, "ro", 0);
      AtChar(s, p, "ro", 1);
    }
  }

  /** The partition as parsed, before device_parse fills in its offset. */
  function Raw(expected: int, p: Part): Part {
    p.(offset := RawOffset(expected, p),
       name := if p.autoName then AutoName(p.size, RawOffset(expected, p)) else p.name)
  }

  lemma AtFour(s: string, p: nat, a: string, b: string, c: string, d: string)
    requires At(s, p, a + b + c + d)
    ensures At(s, p, a) && At(s, p + |a|, b) && At(s, p + |a| + |b|, c) && At(s, p + |a| + |b| + |c|, d)
    ensures b != [] ==> CharAt(s, p + |a|) == b[0]
    ensures c != [] ==> CharAt(s, p + |a| + |b|) == c[0]
    ensures d != [] ==> CharAt(s, p + |a| + |b| + |c|) == d[0]
  {
    AtSplit(s, p, a + b + c, d);
    AtSplit(s, p, a + b, c);
    AtSplit(s, p, a, b);
    if b != [] { AtChar(s, p + |a|, b, 0); }
    if c != [] { AtChar(s, p + |a| + |b|, c, 0); }
    if d != [] { AtChar(s, p + |a| + |b| + |c|, d, 0); }
  }

  /** The pieces of a printed partition and the characters behind each. */
  lemma Pieces(s: string, p: nat, expected: int, part: Part)
    requires At(s, p, PartText(expected, part)) && Ends(CharAt(s, p + |PartText(expected, part)|))
    ensures var p1 := p + |MemsizeFormat(part.size)|;
            var p2 := p1 + |OffsetText(expected, part)|;
            var p3 := p2 + |NameText(part)|;
            && At(s, p, MemsizeFormat(part.size)) && Plain(CharAt(s, p1))
            && At(s, p1, OffsetText(expected, part)) && CharAt(s, p2) in {'(', 'r', ',', ';', NUL}
            && At(s, p2, NameText(part)) && CharAt(s, p3) != '('
            && At(s, p3, RoText(part)) && p3 + |RoText(part)| == p + |PartText(expected, part)|
  {
    hide At, MemsizeFormat;
    AtFour(s, p, MemsizeFormat(part.size), OffsetText(expected, part), NameText(part), RoText(part));
  }

  /** part_parse reads back what the printer wrote for one partition. */
  lemma PartRoundTrip(s: string, p: nat, expected: int, part: Part)
    requires At(s, p, PartText(expected, part)) && Printable(part)
    requires Ends(CharAt(s, p + |PartText(expected, part)|))
    requires CharAt(s, p + |PartText(expected, part)|) == ',' ==> part.size != SIZE_REMAINING
    ensures var end := p + |PartText(expected, part)|;
            ParsePart(s, p) == Some(Parsed(Raw(expected, part), if CharAt(s, end) == ',' then end + 1 else end))
  {
    hide At, AutoName, MemsizeFormat, ParsePart, SizePart, OffsetPart, NamePart, RoPart, PartText, OffsetText,
      NameText, RoText, RawOffset;
    Pieces(s, p, expected, part);
    var p1 := p + |MemsizeFormat(part.size)|;
    var p2 := p1 + |OffsetText(expected, part)|;
    var p3 := p2 + |NameText(part)|;
    var p4 := p3 + |RoText(part)|;
    SizeRoundTrip(s, p, part.size);
    OffsetRoundTrip(s, p1, expected, part);
    NameRoundTrip(s, p2, part);
    RoRoundTrip(s, p3, part);
    Assemble(s, p, p1, p2, p3, p4, part.size, RawOffset(expected, part), part);
  }

  lemma Assemble(s: string, p: nat, p1: nat, p2: nat, p3: nat, p4: nat, size: u32, offset: u32, part: Part)
    requires p <= |s| && p1 <= |s| && p2 <= |s| && p3 <= |s|
    requires SizePart(s, p) == Some((size, p1))
    requires OffsetPart(s, p1) == (offset, p2)
    requires NamePart(s, p2) == Some((if part.autoName then None else Some(part.name), p3))
    requires RoPart(s, p3) == (part.readOnly, p4)
    requires Ends(CharAt(s, p4)) && (CharAt(s, p4) == ',' ==> size != SIZE_REMAINING)
    ensures ParsePart(s, p) == Some(Parsed(
              Part(size, offset, if part.autoName then AutoName(size, offset) else part.name,
                   part.autoName, part.readOnly),
              if CharAt(s, p4) == ',' then p4 + 1 else p4))
  {
  }

  /** A partition that is too small is printed but refused when read back. */
  lemma TooSmallRefused(s: string, p: nat, expected: int, part: Part)
    requires At(s, p, PartText(expected, part)) && part.size < MIN_PART_SIZE
    requires Ends(CharAt(s, p + |PartText(expected, part)|))
    ensures ParsePart(s, p) == None
  {
    hide At, MemsizeFormat, AutoName, PartText, OffsetText, NameText, RoText, SizePart, OffsetPart, NamePart, RoPart,
      RawOffset;
    Pieces(s, p, expected, part);
    SizeRoundTrip(s, p, part.size);
  }

  lemma FillUpRefused(s: string, p: nat, expected: int, part: Part)
    requires At(s, p, PartText(expected, part)) && Printable(part) && part.size == SIZE_REMAINING
    requires CharAt(s, p + |PartText(expected, part)|) == ','
    ensures ParsePart(s, p) == None
  {
    hide At, MemsizeFormat, AutoName, PartText, OffsetText, NameText, RoText, SizePart, OffsetPart, NamePart, RoPart,
      RawOffset;
    Pieces(s, p, expected, part);
    var p1 := p + |MemsizeFormat(part.size)|;
    var p2 := p1 + |OffsetText(expected, part)|;
    SizeRoundTrip(s, p, part.size);
    OffsetRoundTrip(s, p1, expected, part);
    NameRoundTrip(s, p2, part);
    RoRoundTrip(s, p2 + |NameText(part)|, part);
  }

  // ---- a device's partitions ----

  /** Sizes the parser accepts: none below the minimum, and only the last may be all ones. */
  predicate Reparsable(parts: seq<Part>) {
    forall k :: 0 <= k < |parts| ==>
      parts[k].size >= MIN_PART_SIZE && (k + 1 < |parts| ==> parts[k].size != SIZE_REMAINING)
  }

  predicate NameOk(p: Part) { !p.autoName ==> p.name != [] && ')' !in p.name && NUL !in p.name }

  /** A partition list the printer and the parser agree on, its sizes aside. */
  ghost predicate GoodParts(id: MtdId, parts: seq<Part>) {
    forall k :: 0 <= k < |parts| ==> NameOk(parts[k]) && Fits(id, parts[k])
  }

  /** The same partitions; automatic names are made anew from what the text says. */
  function Reparsed(parts: seq<Part>, expected: int): (r: seq<Part>)
    ensures |r| == |parts|
    ensures forall k :: 0 <= k < |parts| ==> r[k].offset == parts[k].offset
  {
    if parts == [] then []
    else
      [parts[0].(name := Raw(expected, parts[0]).name)]
      + Reparsed(parts[1..], Wrap(parts[0].offset + parts[0].size))
  }

  lemma PlacedBack(id: MtdId, part: Part, expected: u32)
    requires Fits(id, part)
    ensures var back := part.(name := Raw(expected, part).name);
            Validated(id, Place(Raw(expected, part), expected)) == Some(back)
  {
    hide AutoName, WholeBlocks;
    var back := part.(name := Raw(expected, part).name);
    assert part.offset != OFFSET_NOT_SPECIFIED;
    assert Place(Raw(expected, part), expected) == back;
    assert Resolve(id, back) == back;
    assert Fits(id, back);
  }

  lemma PartTextHead(expected: int, part: Part)
    ensures PartText(expected, part) != [] && '0' <= PartText(expected, part)[0] <= '9'
  {
    hide Dec;
    DecHead(part.size / GB);
    DecHead(part.size / MB);
    DecHead(part.size / KB);
    DecHead(part.size);
    assert PartText(expected, part)[0] == MemsizeFormat(part.size)[0];
  }

  /** One turn of the partition loop. */
  lemma Unfold(s: string, p: nat, id: MtdId, offset: u32)
    requires p <= |s| && CharAt(s, p) != NUL && CharAt(s, p) != ';'
    ensures var parsed := ParsePart(s, p);
            && (parsed.None? ==> ParseParts(s, p, id, offset) == None)
            && (parsed.Some? ==>
                  var valid := Validated(id, Place(parsed.value.part, offset));
                  valid.Some? ==>
                  var rest := ParseParts(s, parsed.value.next, id, Wrap(valid.value.offset + valid.value.size));
                  ParseParts(s, p, id, offset) ==
                  if rest.None? then None else Some(([valid.value] + rest.value.0, rest.value.1)))
  {
    hide ParsePart, WholeBlocks;
  }

  lemma PartsTextCons(parts: seq<Part>, expected: int)
    requires parts != []
    ensures var next := Wrap(parts[0].offset + parts[0].size);
            PartsText(parts, expected)
            == PartText(expected, parts[0]) + Separator(',', |parts|) + PartsText(parts[1..], next)
    ensures |parts| == 1 ==> PartsText(parts[1..], Wrap(parts[0].offset + parts[0].size)) == []
  {
    hide PartText;
  }

  /** The text of the first partition, its separator, and the text of the others. */
  lemma FirstText(s: string, p: nat, parts: seq<Part>, expected: int) returns (comma: nat, q: nat, next: u32)
    requires parts != [] && At(s, p, PartsText(parts, expected))
    ensures next == Wrap(parts[0].offset + parts[0].size)
    ensures At(s, p, PartText(expected, parts[0])) && p < comma == p + |PartText(expected, parts[0])|
    ensures '0' <= CharAt(s, p) <= '9'
    ensures |parts| > 1 ==> CharAt(s, comma) == ',' && q == comma + 1
    ensures |parts| == 1 ==> q == comma == p + |PartsText(parts, expected)|
    ensures q <= |s| && At(s, q, PartsText(parts[1..], next))
    ensures q + |PartsText(parts[1..], next)| == p + |PartsText(parts, expected)| <= |s|
  {
    PartTextHead(expected, parts[0]);
    next := Wrap(parts[0].offset + parts[0].size);
    var a, b := PartText(expected, parts[0]), Separator(',', |parts|);
    var c := PartsText(parts[1..], next);
    PartsTextCons(parts, expected);
    hide At, PartText, PartsText;
    comma := p + |a|;
    q := comma + |b|;
    AtSplit(s, p, a + b, c);
    AtSplit(s, p, a, b);
    AtChar(s, p, a, 0);
    if b != [] { AtChar(s, comma, b, 0); }
  }

  lemma ReparsableTail(parts: seq<Part>)
    requires parts != []
    ensures Reparsable(parts) <==>
            parts[0].size >= MIN_PART_SIZE && (|parts| > 1 ==> parts[0].size != SIZE_REMAINING)
              && Reparsable(parts[1..])
  {
    var tail := parts[1..];
    assert forall k :: 0 <= k < |tail| ==> tail[k] == parts[k + 1];
    assert forall k :: 0 < k < |parts| ==> parts[k] == tail[k - 1];
  }

  /** The partition loop of device_parse reads the printed list back, elided offsets
      included, or stops at the first size it does not accept. */
  lemma {:induction false} PartsRoundTrip(s: string, p: nat, end: nat, id: MtdId, parts: seq<Part>, expected: u32)
    requires p <= |s| && At(s, p, PartsText(parts, expected)) && GoodParts(id, parts)
    requires end == p + |PartsText(parts, expected)| && ListEnds(CharAt(s, end))
    ensures ParseParts(s, p, id, expected) ==
            if Reparsable(parts) then Some((Reparsed(parts, expected), end)) else None
    decreases |parts|
  {
    hide At, PartText, PartsText, Reparsed, Raw, ParseParts, ParsePart, Validated, Place, GoodParts, Reparsable, Fits,
      WholeBlocks, MemsizeFormat, AutoName, Printable, NameOk, Wrap, CharAt;
    if parts == [] {
      NoParts(s, p, id, expected);
    } else {
      var comma, q, next := FirstText(s, p, parts, expected);
      ReparsableTail(parts);
      Unfold(s, p, id, expected);
      var part := parts[0];
      if part.size < MIN_PART_SIZE {
        TooSmallRefused(s, p, expected, part);
      } else if |parts| > 1 && part.size == SIZE_REMAINING {
        FirstPrintable(id, parts);
        FillUpRefused(s, p, expected, part);
      } else {
        RestRoundTrip(s, p, end, id, parts, expected);
      }
    }
  }

  /** What ends a device's list of partitions. */
  predicate ListEnds(c: char) { c == ';' || c == NUL }

  lemma NoParts(s: string, p: nat, id: MtdId, expected: u32)
    requires p <= |s|
    ensures PartsText([], expected) == [] && Reparsable([]) && Reparsed([], expected) == []
    ensures ListEnds(CharAt(s, p)) ==> ParseParts(s, p, id, expected) == Some(([], p))
  {
  }

  lemma FirstPrintable(id: MtdId, parts: seq<Part>)
    requires parts != [] && GoodParts(id, parts) && parts[0].size >= MIN_PART_SIZE
    ensures Printable(parts[0]) && Fits(id, parts[0]) && GoodParts(id, parts[1..])
  {
    hide WholeBlocks;
    var tail := parts[1..];
    assert forall k :: 0 <= k < |tail| ==> tail[k] == parts[k + 1];
  }

  lemma ReparsedCons(parts: seq<Part>, expected: int)
    requires parts != []
    ensures Reparsed(parts, expected) ==
            [parts[0].(name := Raw(expected, parts[0]).name)]
              + Reparsed(parts[1..], Wrap(parts[0].offset + parts[0].size))
  {
    hide AutoName;
  }

  /** An accepted first partition, and the rest by induction. */
  lemma {:induction false} RestRoundTrip(s: string, p: nat, end: nat, id: MtdId, parts: seq<Part>, expected: u32)
    requires At(s, p, PartsText(parts, expected)) && GoodParts(id, parts) && parts != []
    requires end == p + |PartsText(parts, expected)| && ListEnds(CharAt(s, end))
    requires parts[0].size >= MIN_PART_SIZE && (|parts| > 1 ==> parts[0].size != SIZE_REMAINING)
    ensures ParseParts(s, p, id, expected) ==
            if Reparsable(parts) then Some((Reparsed(parts, expected), end)) else None
    decreases |parts|, 0
  {
    hide At, PartText, PartsText, Reparsed, Raw, ParseParts, ParsePart, Validated, Place, GoodParts, Reparsable, Fits,
      WholeBlocks, MemsizeFormat, AutoName, Printable, NameOk, Wrap, CharAt;
    var comma, q, next := FirstText(s, p, parts, expected);
    ReparsableTail(parts);
    Unfold(s, p, id, expected);
    FirstPrintable(id, parts);
    ReparsedCons(parts, expected);
    PartsRoundTrip(s, q, end, id, parts[1..], next);
    PartRoundTrip(s, p, expected, parts[0]);
    PlacedBack(id, parts[0], expected);
  }

  // ---- devices ----

  predicate SameKey(a: MtdId, b: MtdId) { a.kind == b.kind && a.num == b.num }

  predicate UniqueKeys(devs: seq<Device>) {
    forall i, j :: 0 <= i < j < |devs| ==> !SameKey(devs[i].id, devs[j].id)
  }

  /** The first id of its name, and a name that a text can carry: no other id is ever parsed. */
  predicate FirstOfName(ids: seq<MtdId>, id: MtdId) {
    FindId(ids, id.name) == Some(id) && ':' !in id.name && NUL !in id.name
  }

  /** A device as every run of the commands keeps it. */
  ghost predicate GoodDevice(ids: seq<MtdId>, d: Device) {
    && FirstOfName(ids, d.id)
    && d.parts != [] && d.numParts == |d.parts|
    && GoodParts(d.id, d.parts) && Sorted(d.parts) && OneAtZero(d.parts)
  }

  /** What comes back: automatic names made anew, and partitions of one offset the other way
      round. */
  function ReparsedDevice(d: Device): Device { d.(parts := Resorted(Reparsed(d.parts, 0)), numParts := |d.parts|) }

  function Resorted(ps: seq<Part>): seq<Part> { if InsertAll([], ps).Some? then InsertAll([], ps).value else ps }

  lemma SortedBack(d: Device)
    requires Sorted(d.parts) && OneAtZero(d.parts)
    ensures var back := Reparsed(d.parts, 0);
            InsertAll([], back) == Some(Resorted(back)) && |Resorted(back)| == |d.parts|
  {
    var back := Reparsed(d.parts, 0);
    hide Reparsed, InsertAll;
    SortedAccepted(back);
    assert Sorted([]) && OneAtZero([]);
    InsertAllKeeps([], back);
    assert |multiset(Resorted(back))| == |Resorted(back)| && |multiset(back)| == |back|;
  }

  lemma AtSlice(s: string, p: nat, a: string, b: string)
    requires At(s, p, a + b)
    ensures p + |a| + |b| <= |s| && s[p..p + |a|] == a
  {
    AtSplit(s, p, a, b);
  }

  /** A name, the colon behind it, and the rest. */
  lemma ColonBehind(s: string, p: nat, name: string, rest: string)
    requires At(s, p, name + [':'] + rest) && ':' !in name && NUL !in name
    ensures p + |name| + 1 + |rest| <= |s| && s[p..p + |name|] == name && At(s, p + |name| + 1, rest)
    ensures IndexOf(s, p, ':') == Some(p + |name|) && CharAt(s, p) != NUL
  {
    hide At, IndexOf;
    AtThree(s, p, name, [':'], rest);
    IndexOfFirst(s, p, name, ':');
    AtChar(s, p, name + [':'], 0);
  }

  /** The two parts of a device's text. */
  lemma DeviceText(s: string, p: nat, end: nat, d: Device) returns (colon: nat)
    requires At(s, p, DevText(d)) && end == p + |DevText(d)| && ':' !in d.id.name && NUL !in d.id.name
    requires d.parts != []
    ensures p <= colon && colon + 1 <= end <= |s|
    ensures IndexOf(s, p, ':') == Some(colon) && s[p..colon] == d.id.name
    ensures At(s, colon + 1, PartsText(d.parts, 0)) && end == colon + 1 + |PartsText(d.parts, 0)|
    ensures '0' <= CharAt(s, colon + 1) <= '9' && CharAt(s, p) != NUL
  {
    hide At, PartsText, IndexOf;
    colon := p + |d.id.name|;
    ColonBehind(s, p, d.id.name, PartsText(d.parts, 0));
    var comma, q, next := FirstText(s, colon + 1, d.parts, 0);
  }

  /** device_parse reads back what the printer wrote for one device. */
  lemma DeviceRoundTrip(s: string, p: nat, end: nat, ids: seq<MtdId>, devs: seq<Device>, d: Device)
    requires p <= |s| && At(s, p, DevText(d)) && end == p + |DevText(d)| && ListEnds(CharAt(s, end))
    requires GoodDevice(ids, d)
    requires FindDevice(devs, d.id.kind, d.id.num) == None
    ensures ParseDevice(s, p, ids, devs) ==
            if Reparsable(d.parts)
            then Some((ReparsedDevice(d), if CharAt(s, end) == ';' then end + 1 else end)) else None
  {
    hide At, DevText, PartsText, GoodParts, Reparsable, Sorted, OneAtZero, Reparsed, Resorted, InsertAll,
      ParseParts, FindId, FindDevice, IndexOf, Fits;
    var colon := DeviceText(s, p, end, d);
    PartsRoundTrip(s, colon + 1, end, d.id, d.parts, 0);
    SortedBack(d);
  }

  function ReparsedAll(devs: seq<Device>): (r: seq<Device>)
    ensures |r| == |devs|
    ensures forall k :: 0 <= k < |devs| ==> r[k] == ReparsedDevice(devs[k])
  {
    if devs == [] then [] else [ReparsedDevice(devs[0])] + ReparsedAll(devs[1..])
  }

  ghost predicate AllReparsable(devs: seq<Device>) {
    forall k :: 0 <= k < |devs| ==> Reparsable(devs[k].parts)
  }

  ghost predicate GoodDevices(ids: seq<MtdId>, devs: seq<Device>) {
    forall k :: 0 <= k < |devs| ==> GoodDevice(ids, devs[k])
  }

  predicate NoneOf(have: seq<Device>, devs: seq<Device>) {
    forall i, j :: 0 <= i < |have| && 0 <= j < |devs| ==> !SameKey(have[i].id, devs[j].id)
  }

  lemma DevsTextCons(devs: seq<Device>)
    requires devs != []
    ensures DevsText(devs) == DevText(devs[0]) + Separator(';', |devs|) + DevsText(devs[1..])
    ensures DevText(devs[0]) == devs[0].id.name + [':'] + PartsText(devs[0].parts, 0)
  {
    hide PartsText;
  }

  /** The first device's text, its separator, and the text of the others. */
  lemma FirstDevice(s: string, p: nat, end: nat, devs: seq<Device>) returns (semi: nat, q: nat)
    requires devs != [] && At(s, p, DevsText(devs)) && end == p + |DevsText(devs)| && CharAt(s, end) == NUL
    ensures p <= |s| && q <= |s|
    ensures At(s, p, DevText(devs[0])) && semi == p + |DevText(devs[0])|
    ensures CharAt(s, semi) == (if |devs| > 1 then ';' else NUL)
    ensures q == if CharAt(s, semi) == ';' then semi + 1 else semi
    ensures At(s, q, DevsText(devs[1..])) && end == q + |DevsText(devs[1..])|
  {
    hide At, DevText, DevsText, Separator;
    var a, b, c := DevText(devs[0]), Separator(';', |devs|), DevsText(devs[1..]);
    DevsTextCons(devs);
    NoDevices();
    SeparatorIs(';', |devs|);
    assert |devs| == 1 ==> devs[1..] == [];
    semi := p + |a|;
    q := semi + |b|;
    AtThree(s, p, a, b, c);
  }

  lemma SeparatorIs(c: char, left: nat)
    ensures left > 1 ==> |Separator(c, left)| == 1 && Separator(c, left)[0] == c
    ensures left <= 1 ==> Separator(c, left) == []
  {
  }

  lemma StepKeys(have: seq<Device>, devs: seq<Device>)
    requires devs != [] && NoneOf(have, devs) && UniqueKeys(devs)
    ensures FindDevice(have, devs[0].id.kind, devs[0].id.num) == None
    ensures NoneOf(have + [ReparsedDevice(devs[0])], devs[1..]) && UniqueKeys(devs[1..])
  {
    hide Reparsed;
    var have', tail := have + [ReparsedDevice(devs[0])], devs[1..];
    assert forall j :: 0 <= j < |tail| ==> tail[j] == devs[j + 1];
    forall i, j | 0 <= i < |have'| && 0 <= j < |tail| ensures !SameKey(have'[i].id, tail[j].id) {
      assert i < |have| ==> have'[i] == have[i];
    }
  }

  lemma StepGood(ids: seq<MtdId>, devs: seq<Device>)
    requires devs != [] && GoodDevices(ids, devs)
    ensures GoodDevice(ids, devs[0]) && GoodDevices(ids, devs[1..])
    ensures AllReparsable(devs) <==> Reparsable(devs[0].parts) && AllReparsable(devs[1..])
    ensures devs[0].parts != [] && ':' !in devs[0].id.name && NUL !in devs[0].id.name
  {
    hide GoodParts, Reparsable, Sorted, OneAtZero;
    var tail := devs[1..];
    assert forall j :: 0 <= j < |tail| ==> tail[j] == devs[j + 1];
    assert forall j :: 0 < j < |devs| ==> devs[j] == tail[j - 1];
  }

  lemma {:induction false} DevicesRoundTrip(s: string, p: nat, end: nat, ids: seq<MtdId>, have: seq<Device>,
                                            devs: seq<Device>)
    requires p <= |s| && At(s, p, DevsText(devs)) && end == p + |DevsText(devs)| && CharAt(s, end) == NUL
    requires GoodDevices(ids, devs) && UniqueKeys(devs) && NoneOf(have, devs)
    ensures ParseDevices(s, p, ids, have) == if AllReparsable(devs) then Some(have + ReparsedAll(devs)) else None
    decreases |devs|
  {
    hide At, DevText, DevsText, GoodDevices, GoodDevice, AllReparsable, Reparsable, UniqueKeys, NoneOf,
      ReparsedDevice, ReparsedAll, ParseDevice, FindDevice;
    if devs == [] {
      NoDevices();
      assert have + [] == have;
    } else {
      var semi, q := FirstDevice(s, p, end, devs);
      StepKeys(have, devs);
      StepGood(ids, devs);
      DeviceRoundTrip(s, p, semi, ids, have, devs[0]);
      var colon := DeviceText(s, p, semi, devs[0]);
      DevicesRoundTrip(s, q, end, ids, have + [ReparsedDevice(devs[0])], devs[1..]);
      ReparsedAllCons(have, devs);
    }
  }

  lemma NoDevices()
    ensures DevsText([]) == [] && AllReparsable([]) && ReparsedAll([]) == []
  {
  }

  lemma ReparsedAllCons(have: seq<Device>, devs: seq<Device>)
    requires devs != []
    ensures have + ReparsedAll(devs) == have + [ReparsedDevice(devs[0])] + ReparsedAll(devs[1..])
    ensures ReparsedDevice(devs[0]).id == devs[0].id
  {
    hide Reparsed;
  }

  /** Parsing the printed table succeeds exactly when no size is one the parser refuses, and then
      gives every device and partition back, those of one offset the other way round. */
  lemma TableRoundTrip(ids: seq<MtdId>, devs: seq<Device>)
    requires devs != [] && GoodDevices(ids, devs) && UniqueKeys(devs)
    ensures ParseTable(TableText(devs), ids) == if AllReparsable(devs) then Some(ReparsedAll(devs)) else None
  {
    hide At, DevText, DevsText, GoodDevices, GoodDevice, AllReparsable, Reparsable, UniqueKeys,
      ReparsedAll, ParseDevices, TableText;
    var s := TableText(devs);
    TableTextAt(devs);
    var semi, q := FirstDevice(s, |PREFIX|, |s|, devs);
    StepGood(ids, devs);
    var colon := DeviceText(s, |PREFIX|, semi, devs[0]);
    DevicesRoundTrip(s, |PREFIX|, |s|, ids, [], devs);
    assert [] + ReparsedAll(devs) == ReparsedAll(devs);
  }

  lemma TableTextAt(devs: seq<Device>)
    requires devs != []
    ensures PREFIX <= TableText(devs) && |TableText(devs)| == |PREFIX| + |DevsText(devs)|
    ensures At(TableText(devs), |PREFIX|, DevsText(devs)) && CharAt(TableText(devs), |TableText(devs)|) == NUL
  {
    hide DevsText;
    var s := TableText(devs);
    assert s == PREFIX + DevsText(devs);
    assert s[|PREFIX|..|PREFIX| + |DevsText(devs)|] == DevsText(devs);
  }

  /** What the round trip keeps: everything but automatic names. */
  lemma {:induction false} ReparsedKeeps(parts: seq<Part>, expected: int, k: nat)
    requires k < |parts|
    ensures var r := Reparsed(parts, expected)[k];
            && r.size == parts[k].size && r.offset == parts[k].offset
            && r.readOnly == parts[k].readOnly && r.autoName == parts[k].autoName
            && (!parts[k].autoName ==> r == parts[k])
  {
    hide AutoName;
    if k > 0 {
      ReparsedKeeps(parts[1..], Wrap(parts[0].offset + parts[0].size), k - 1);
    }
  }

  /** No two partitions of a device share an offset. */
  ghost predicate AllStrict(devs: seq<Device>) {
    forall k :: 0 <= k < |devs| ==> StrictlySorted(devs[k].parts)
  }

  ghost predicate AllNamed(devs: seq<Device>) {
    forall k, p :: 0 <= k < |devs| && p in devs[k].parts ==> !p.autoName
  }

  predicate Different(ps: seq<Part>) { forall i, j :: 0 <= i < j < |ps| ==> ps[i] != ps[j] }

  ghost predicate AllDifferent(devs: seq<Device>) {
    forall k :: 0 <= k < |devs| ==> Different(devs[k].parts)
  }

  /** With user names only, and no two partitions the same, the table itself comes back exactly
      when every size can be parsed and no device has two partitions at one offset. */
  lemma NamedTableRoundTrip(ids: seq<MtdId>, devs: seq<Device>)
    requires devs != [] && GoodDevices(ids, devs) && UniqueKeys(devs)
    requires AllNamed(devs) && AllDifferent(devs)
    ensures ParseTable(TableText(devs), ids) == Some(devs) <==> AllReparsable(devs) && AllStrict(devs)
  {
    hide ParseTable, TableText, AllReparsable, GoodParts, Reparsed, ReparsedDevice, UniqueKeys,
      StrictlySorted, Sorted, OneAtZero, Different;
    TableRoundTrip(ids, devs);
    forall k | 0 <= k < |devs| ensures ReparsedDevice(devs[k]) == devs[k] <==> StrictlySorted(devs[k].parts) {
      NamedDeviceBack(devs[k]);
    }
    if AllStrict(devs) { assert ReparsedAll(devs) == devs; }
  }

  /** The same for one device. */
  lemma NamedDeviceBack(d: Device)
    requires d.numParts == |d.parts| && forall p :: p in d.parts ==> !p.autoName
    requires Sorted(d.parts) && OneAtZero(d.parts) && Different(d.parts)
    ensures ReparsedDevice(d) == d <==> StrictlySorted(d.parts)
  {
    hide Reparsed, InsertAll;
    var ps := d.parts;
    forall i | 0 <= i < |ps| ensures Reparsed(ps, 0)[i] == ps[i] {
      assert ps[i] in ps;
      ReparsedKeeps(ps, 0, i);
    }
    assert Reparsed(ps, 0) == ps;
    SortedBack(d);
    SameOrderIffDistinct(ps);
  }

  // ---- whatever the names ----

  /** The same partition, automatic names aside. */
  predicate Alike(a: Part, b: Part) {
    && a.size == b.size && a.offset == b.offset && a.readOnly == b.readOnly && a.autoName == b.autoName
    && (!a.autoName ==> a.name == b.name)
  }

  predicate AllAlike(a: seq<Part>, b: seq<Part>) {
    |a| == |b| && forall i :: 0 <= i < |a| ==> Alike(a[i], b[i])
  }

  predicate Apart(ps: seq<Part>) { forall i, j :: 0 <= i < j < |ps| ==> !Alike(ps[i], ps[j]) }

  /** The same devices, with the same partitions in the same places. */
  predicate InPlace(a: seq<Device>, b: seq<Device>) {
    |a| == |b| && forall k :: 0 <= k < |a| ==> a[k].id == b[k].id && AllAlike(a[k].parts, b[k].parts)
  }

  /** A list of different partitions that is sorted comes back in its places exactly when no two
      share an offset. */
  lemma DeviceInPlaceIff(d: Device)
    requires Sorted(d.parts) && OneAtZero(d.parts)
    ensures StrictlySorted(d.parts) ==> AllAlike(ReparsedDevice(d).parts, d.parts)
    ensures Apart(d.parts) && AllAlike(ReparsedDevice(d).parts, d.parts) ==> StrictlySorted(d.parts)
  {
    hide Reparsed, InsertAll, Resorted, Sorted, StrictlySorted, OneAtZero, AllAlike, Apart;
    var ps, back := d.parts, Reparsed(d.parts, 0);
    ReparsedAlike(ps);
    SortedBack(d);
    if StrictlySorted(ps) {
      assert [] + back == back;
      InsertAllBehind([], back);
    } else if Apart(ps) && AllAlike(Resorted(back), ps) {
      SameOrderIffDistinct(back);
      assert Sorted([]) && OneAtZero([]) by { EmptyOk(); }
      InsertAllKeeps([], back);
      assert multiset([]) + multiset(back) == multiset(back);
      SamePlaces(ps, back, Resorted(back));
    }
  }

  lemma EmptyOk()
    ensures Sorted([]) && OneAtZero([])
  {
  }

  /** What is parsed from a list, before it is sorted. */
  lemma ReparsedAlike(ps: seq<Part>)
    ensures var back := Reparsed(ps, 0);
            && AllAlike(back, ps)
            && (Sorted(ps) <==> Sorted(back)) && (StrictlySorted(ps) <==> StrictlySorted(back))
            && (OneAtZero(ps) <==> OneAtZero(back))
            && (Apart(ps) ==> forall i, j :: 0 <= i < j < |back| ==> back[i] != back[j])
  {
    hide Reparsed;
    forall i | 0 <= i < |ps| ensures Alike(Reparsed(ps, 0)[i], ps[i]) {
      ReparsedKeeps(ps, 0, i);
    }
  }

  /** Sorted again without a partition out of its place is the same list. */
  lemma SamePlaces(ps: seq<Part>, back: seq<Part>, again: seq<Part>)
    requires Apart(ps) && AllAlike(back, ps) && AllAlike(again, ps) && multiset(again) == multiset(back)
    ensures again == back
  {
    forall i | 0 <= i < |again| ensures again[i] == back[i] {
      assert again[i] in multiset(again);
      assert again[i] in back;
      var j :| 0 <= j < |back| && back[j] == again[i];
      assert Alike(ps[i], ps[j]) && Alike(ps[j], ps[i]);
    }
  }

  /** Whatever the names: every device and partition comes back in its place when every size can
      be parsed and no device has two partitions at one offset, and, for partitions that are all
      different, only then. */
  lemma InPlaceIff(ids: seq<MtdId>, devs: seq<Device>)
    requires devs != [] && GoodDevices(ids, devs) && UniqueKeys(devs)
    ensures var r := ParseTable(TableText(devs), ids);
            && (AllReparsable(devs) && AllStrict(devs) ==> r.Some? && InPlace(r.value, devs))
            && ((forall d :: d in devs ==> Apart(d.parts)) && r.Some? && InPlace(r.value, devs) ==>
                  AllReparsable(devs) && AllStrict(devs))
  {
    hide ParseTable, TableText, AllReparsable, GoodParts, Reparsed, ReparsedDevice, UniqueKeys, StrictlySorted, Sorted,
      OneAtZero, Apart, AllAlike;
    TableRoundTrip(ids, devs);
    forall k | 0 <= k < |devs|
      ensures ReparsedAll(devs)[k].id == devs[k].id
      ensures StrictlySorted(devs[k].parts) ==> AllAlike(ReparsedAll(devs)[k].parts, devs[k].parts)
      ensures Apart(devs[k].parts) && AllAlike(ReparsedAll(devs)[k].parts, devs[k].parts) ==>
                StrictlySorted(devs[k].parts)
    {
      DeviceInPlaceIff(devs[k]);
      ReparsedId(devs[k]);
    }
  }

  lemma ReparsedId(d: Device)
    ensures ReparsedDevice(d).id == d.id
  {
  }

  // ---- a table that does not come back ----

  const TIE_ID: MtdId := MtdId(NAND, 0, 0x10_0000, "d", Uniform(4096))
  const TIE_A: Part := Part(4096, 4096, "a", false, false)
  const TIE_B: Part := Part(4096, 4096, "b", false, false)

  /** Two partitions at one offset come back the other way round. */
  lemma TiesComeBackSwapped()
    ensures var table, swapped := [Device(TIE_ID, [TIE_A, TIE_B], 2)], [Device(TIE_ID, [TIE_B, TIE_A], 2)];
            GoodDevices([TIE_ID], table) && ParseTable(TableText(table), [TIE_ID]) == Some(swapped) != Some(table)
  {
    var parts := [TIE_A, TIE_B];
    var table := [Device(TIE_ID, parts, 2)];
    TieParts();
    TieInsert();
    TieReparsed();
    hide ParseTable, TableText, GoodParts, Reparsed, InsertAll, Reparsable;
    TableRoundTrip([TIE_ID], table);
    assert ReparsedAll(table) == [ReparsedDevice(table[0])];
  }

  lemma TieParts()
    ensures GoodParts(TIE_ID, [TIE_A, TIE_B]) && Reparsable([TIE_A, TIE_B])
  {
    AlignedIffWholeBlocks(TIE_ID.geometry, 4096, 8192);
  }

  lemma TieInsert()
    ensures InsertAll([], [TIE_A, TIE_B]) == Some([TIE_B, TIE_A])
  {
    TieSteps();
    hide InsertSorted;
    assert [TIE_A, TIE_B][1..] == [TIE_B] && [TIE_B][1..] == [];
    assert InsertAll([TIE_B, TIE_A], []) == Some([TIE_B, TIE_A]);
    assert InsertAll([TIE_A], [TIE_B]) == Some([TIE_B, TIE_A]);
  }

  lemma TieSteps()
    ensures InsertSorted([], TIE_A) == Some([TIE_A]) && InsertSorted([TIE_A], TIE_B) == Some([TIE_B, TIE_A])
  {
    assert InsertAt([], 0, TIE_A) == [TIE_A] && InsertAt([TIE_A], 0, TIE_B) == [TIE_B, TIE_A];
  }

  lemma TieReparsed()
    ensures Reparsed([TIE_A, TIE_B], 0) == [TIE_A, TIE_B]
  {
    hide Reparsed;
    ReparsedKeeps([TIE_A, TIE_B], 0, 0);
    ReparsedKeeps([TIE_A, TIE_B], 0, 1);
  }
}

/** The parser as the code runs it: loops over a cursor. */
module MtdIO {
  import opened MtdTypes
  import opened MtdBlocks
  import opened MtdLists
  import opened MtdText
  import opened MtdRoundTrip
  import opened MtdTable
  import opened Options

  /** part_parse: advances the cursor over size, offset, name and flag. */
  method PartParse(s: string, start: nat) returns (r: Option<Parsed>)
    requires start <= |s|
    ensures r == ParsePart(s, start)
  {
    hide SizePart, OffsetPart, NamePart, RoPart, AutoName;
    var p := start;
    var size := SizePart(s, p);
    if size.None? { return None; }
    p := size.value.1;
    var offset := OffsetPart(s, p);
    p := offset.1;
    var name := NamePart(s, p);
    if name.None? { return None; }
    p := name.value.1;
    var ro := RoPart(s, p);
    p := ro.1;
    if CharAt(s, p) == ',' {
      if size.value.0 == SIZE_REMAINING { return None; }
      p := p + 1;
    } else if CharAt(s, p) != ';' && CharAt(s, p) != NUL {
      return None;
    }
    var text := if name.value.0.Some? then name.value.0.value else AutoName(size.value.0, offset.0);
    return Some(Parsed(Part(size.value.0, offset.0, text, name.value.0.None?, ro.0), p));
  }

  /** What is left to parse, with what has been parsed in front. */
  ghost function After(done: seq<Part>, rest: Option<(seq<Part>, nat)>): Option<(seq<Part>, nat)> {
    if rest.None? then None else Some((done + rest.value.0, rest.value.1))
  }

  lemma AfterStep(done: seq<Part>, q: Part, rest: Option<(seq<Part>, nat)>)
    ensures After([], rest) == rest
    ensures After(done + [q], rest) == if rest.None? then None
            else After(done, Some(([q] + rest.value.0, rest.value.1)))
  {
    if rest.Some? {
      assert [] + rest.value.0 == rest.value.0;
      assert done + [q] + rest.value.0 == done + ([q] + rest.value.0);
    }
  }

  lemma ResolveKeepsOffset(id: MtdId, p: Part)
    ensures Resolve(id, p).offset == p.offset
  {
  }

  lemma Rejected(s: string, p: nat, id: MtdId, offset: u32)
    requires p <= |s| && CharAt(s, p) != NUL && CharAt(s, p) != ';' && ParsePart(s, p).Some?
    requires Validated(id, Place(ParsePart(s, p).value.part, offset)) == None
    ensures ParseParts(s, p, id, offset) == None
  {
    hide ParsePart, Validated;
  }

  /** The partition loop of device_parse. */
  method PartsParse(s: string, start: nat, id: MtdId, first: u32) returns (r: Option<(seq<Part>, nat)>)
    requires start <= |s| && Sane(id.geometry)
    ensures r == ParseParts(s, start, id, first)
  {
    hide ParsePart, Fits, Resolve, ParseParts, After, Wrap;
    var p, done := start, [];
    var offset: u32 := first;
    AfterStep([], Part(0, 0, [], true, false), ParseParts(s, p, id, offset));
    while CharAt(s, p) != NUL && CharAt(s, p) != ';'
      invariant p <= |s|
      invariant After(done, ParseParts(s, p, id, offset)) == ParseParts(s, start, id, first)
      decreases |s| - p
    {
      Unfold(s, p, id, offset);
      var parsed := PartParse(s, p);
      if parsed.None? { NothingAfter(done); return None; }
      var part := parsed.value.part;
      ghost var placed := Place(part, offset);
      ghost var was := offset;
      if part.offset == OFFSET_NOT_SPECIFIED {
        part := part.(offset := offset);
      } else {
        offset := part.offset;
      }
      assert part == placed && offset == part.offset;
      ResolveKeepsOffset(id, part);
      var ok;
      ok, part := PartValidate(id, part);
      if !ok {
        Rejected(s, p, id, was);
        NothingAfter(done);
        return None;
      }
      offset := Wrap(offset + part.size);
      p := parsed.value.next;
      AfterStep(done, part, ParseParts(s, p, id, offset));
      if ParseParts(s, p, id, offset).None? { NothingAfter(done); NothingAfter(done + [part]); }
      done := done + [part];
    }
    Finished(s, p, id, offset, done);
    return Some((done, p));
  }

  lemma NothingAfter(done: seq<Part>)
    ensures After(done, None) == None
  {
  }

  lemma Finished(s: string, p: nat, id: MtdId, offset: u32, done: seq<Part>)
    requires p <= |s| && ListEnds(CharAt(s, p))
    ensures After(done, ParseParts(s, p, id, offset)) == Some((done, p))
  {
    assert done + [] == done;
  }

  /** device_parse: id, partitions, and their insertion in offset order. */
  method DeviceParse(s: string, start: nat, ids: seq<MtdId>, devs: seq<Device>) returns (r: Option<(Device, nat)>)
    requires start <= |s| && OkIds(ids)
    ensures r == ParseDevice(s, start, ids, devs)
  {
    hide ParseParts, InsertAll, InsertSorted, FindDevice, Sane;
    var colon := IndexOf(s, start, ':');
    if colon.None? { return None; }
    FoundIdIn(ids, s[start..colon.value]);
    var id := FindId(ids, s[start..colon.value]);
    if id.None? { return None; }
    var p := colon.value + 1;
    var offset := DefaultOffset(devs, id.value);
    if CharAt(s, p) == NUL || CharAt(s, p) == ';' { return None; }
    var parts := PartsParse(s, p, id.value, offset);
    if parts.None? { return None; }
    var tmp, next := parts.value.0, parts.value.1;
    var sorted := InsertEach(tmp);
    if sorted.None? { return None; }
    return Some((Device(id.value, sorted.value, |sorted.value|), if CharAt(s, next) == ';' then next + 1 else next));
  }

  /** Moves the parsed partitions into the new device one by one. */
  method InsertEach(tmp: seq<Part>) returns (r: Option<seq<Part>>)
    ensures r == InsertAll([], tmp)
  {
    var i, parts := 0, [];
    while i < |tmp|
      invariant i <= |tmp| && InsertAll(parts, tmp[i..]) == InsertAll([], tmp)
    {
      assert tmp[i..][1..] == tmp[i + 1..];
      var more := InsertSorted(parts, tmp[i]);
      if more.None? { return None; }
      parts := more.value;
      i := i + 1;
    }
    return Some(parts);
  }

  /** parse_mtdparts: device after device, all or nothing. */
  method ParseMtdparts(s: string, ids: seq<MtdId>) returns (r: Option<seq<Device>>)
    requires OkIds(ids)
    ensures r == ParseTable(s, ids)
  {
    hide ParseDevice, OkIds;
    if !(PREFIX <= s) { return None; }
    var p := |PREFIX|;
    var devs := [];
    if CharAt(s, p) == NUL { return None; }
    while CharAt(s, p) != NUL
      invariant p <= |s|
      invariant ParseDevices(s, p, ids, devs) == ParseDevices(s, |PREFIX|, ids, [])
      decreases |s| - p
    {
      var d := DeviceParse(s, p, ids, devs);
      if d.None? { return None; }
      if FindDevice(devs, d.value.0.id.kind, d.value.0.id.num).Some? { return None; }
      devs, p := devs + [d.value.0], d.value.1;
    }
    return Some(devs);
  }
}

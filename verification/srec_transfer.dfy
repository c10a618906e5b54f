/** Saving a range of memory as S-records, and loading S-records into memory. */
module SRecTransfer {
  import opened SRecCode
  import opened Options

  type Memory = map<nat, byte>

  const PER_RECORD: nat := 16

  const HEADER: string := "S0030000FC\n"
  const TRAILER: string := "S70500000000FA\n"

  function Min(a: nat, b: nat): nat { if a < b then a else b }

  function Max(a: nat, b: nat): nat { if a < b then b else a }

  // ---- the text of a range ----

  /** The records of a range: sixteen bytes each, the last one what is left. */
  function Records(addr: nat, data: seq<byte>): string
    requires addr + |data| <= WORD
    decreases |data|
  {
    if data == [] then ""
    else
      var n := Min(PER_RECORD, |data|);
      DataRecord(addr, data[..n]) + "\n" + Records(addr + n, data[n..])
  }

  function Saved(addr: nat, data: seq<byte>): string
    requires addr + |data| <= WORD
  {
    HEADER + Records(addr, data) + TRAILER
  }

  predicate Present(mem: Memory, addr: nat, count: nat) {
    forall a :: addr <= a < addr + count ==> a in mem
  }

  function Range(mem: Memory, addr: nat, count: nat): (r: seq<byte>)
    requires Present(mem, addr, count)
    ensures |r| == count
  {
    seq(count, i requires 0 <= i < count => mem[addr + i])
  }

  // ---- loading ----

  /** memcpy to an address of 32 bits. */
  function Copy(mem: Memory, addr: nat, data: seq<byte>): Memory
    decreases |data|
  {
    if data == [] then mem else Copy(mem[addr % WORD := data[0]], (addr + 1) % WORD, data[1..])
  }

  /** Memory, and the bounds of what has been loaded. */
  datatype Loading = Loading(mem: Memory, start: nat, end: nat)

  datatype Loaded =
    | Finished(addr: nat, size: nat, mem: Memory)
    | Refused(mem: Memory)        // an invalid record, ^C, or an upload that breaks off
    | Undefined(mem: Memory)      // a data record whose length is below that of its address

  /** read_record: up to a carriage return or line feed, at most `room` characters; None for
      a NUL, a ^C or the end of what arrives. */
  function TakeLine(s: string, room: nat): (r: (Option<string>, string))
    ensures |r.1| <= |s|
    ensures r.0.Some? && room > 0 ==> |r.1| < |s|
    decreases room
  {
    if room == 0 then (Some(""), s)
    else if s == "" || s[0] == '\0' || s[0] == '\U{0003}' then (None, s)
    else if s[0] == '\r' || s[0] == '\n' then (Some(""), s[1..])
    else
      var r := TakeLine(s[1..], room - 1);
      if r.0.None? then r else (Some([s[0]] + r.0.value), r.1)
  }

  function OneLoaded(l: Loading, at: nat, data: seq<byte>): Loading {
    Loading(Copy(l.mem, at, data),
            if at < l.start then at else l.start,
            if (at + |data| - 1) % WORD > l.end then (at + |data| - 1) % WORD else l.end)
  }

  /** load_serial, record after record. */
  function Load(s: string, offset: int, room: nat, l: Loading): Loaded
    requires room > 0
    decreases |s|
  {
    var (line, rest) := TakeLine(s, room);
    if line.None? then Refused(l.mem)
    else
      match Decode(line.value)
      case Empty => Load(rest, offset, room, l)
      case Record(Data, addr, count, data) =>
        if count < 0 then Undefined(l.mem)
        else Load(rest, offset, room, OneLoaded(l, (addr + offset) % WORD, data))
      case Record(End, addr, _, _) => Finished(addr, (l.end - l.start + 1) % WORD, l.mem)
      case Record(_, _, _, _) => Load(rest, offset, room, l)
      case _ => Refused(l.mem)
  }

  // ---- loading what was saved ----

  predicate Plain(s: string) {
    forall i :: 0 <= i < |s| ==> s[i] != '\0' && s[i] != '\U{0003}' && s[i] != '\r' && s[i] != '\n'
  }

  lemma {:induction false} LineTaken(line: string, rest: string, room: nat)
    requires Plain(line) && |line| < room
    ensures TakeLine(line + "\n" + rest, room) == (Some(line), rest)
    decreases room
  {
    var s := line + "\n" + rest;
    if line == "" {
      assert s == "\n" + rest;
    } else {
      assert s[0] == line[0] && s[1..] == line[1..] + "\n" + rest;
      LineTaken(line[1..], rest, room - 1);
      assert [line[0]] + line[1..] == line;
    }
  }

  lemma {:induction false} HexPlain(bs: seq<byte>)
    ensures Plain(HexBytes(bs))
  {
    if bs != [] {
      HexPlain(bs[1..]);
      DigitPlain(bs[0] / 16);
      DigitPlain(bs[0] % 16);
    }
  }

  lemma DigitPlain(d: nat)
    requires d < 16
    ensures '0' <= HEX[d] <= 'F'
  {
  }

  lemma RecordPlain(addr: nat, data: seq<byte>)
    requires addr < WORD && |data| <= PER_RECORD
    ensures Plain(DataRecord(addr, data)) && |DataRecord(addr, data)| <= 46
  {
    hide HexBytes, Check;
    var c := Contents(addr, data);
    HexPlain(c + [Check(c)]);
  }

  lemma {:induction false} CopyTwice(mem: Memory, addr: nat, x: seq<byte>, y: seq<byte>)
    requires addr < WORD
    ensures Copy(Copy(mem, addr, x), (addr + |x|) % WORD, y) == Copy(mem, addr, x + y)
    decreases |x|
  {
    if x == [] {
      assert x + y == y;
    } else {
      assert (x + y)[1..] == x[1..] + y;
      NextWord(addr, |x|);
      CopyTwice(mem[addr % WORD := x[0]], (addr + 1) % WORD, x[1..], y);
    }
  }

  lemma NextWord(addr: nat, n: nat)
    requires n > 0
    ensures ((addr + 1) % WORD + (n - 1)) % WORD == (addr + n) % WORD
  {
  }

  /** How far behind addr an address is, over the top of memory. */
  function Behind(a: nat, addr: nat): nat { (a - addr) % WORD }

  /** What copying leaves in memory. */
  lemma {:induction false} CopyIs(mem: Memory, addr: nat, data: seq<byte>, a: nat)
    requires addr < WORD && |data| <= WORD
    ensures a < WORD && Behind(a, addr) < |data| ==>
              a in Copy(mem, addr, data) && Copy(mem, addr, data)[a] == data[Behind(a, addr)]
    ensures !(a < WORD && Behind(a, addr) < |data|) ==>
              (a in Copy(mem, addr, data) <==> a in mem) && (a in mem ==> Copy(mem, addr, data)[a] == mem[a])
    decreases |data|
  {
    hide Behind;
    if data != [] {
      CopyIs(mem[addr := data[0]], (addr + 1) % WORD, data[1..], a);
      if a < WORD { OneNearer(a, addr); }
    }
  }

  lemma OneNearer(a: nat, addr: nat)
    requires a < WORD && addr < WORD
    ensures a == addr ==> Behind(a, addr) == 0 && Behind(a, (addr + 1) % WORD) == WORD - 1
    ensures a != addr ==> Behind(a, (addr + 1) % WORD) == Behind(a, addr) - 1
  {
  }

  /** What the records of a range leave, when it is loaded from `at` on. */
  function Loads(l: Loading, at: nat, data: seq<byte>): Loading
    decreases |data|
  {
    if data == [] then l
    else
      var n := Min(PER_RECORD, |data|);
      Loads(OneLoaded(l, at, data[..n]), (at + n) % WORD, data[n..])
  }

  lemma RecordLoads(addr: nat, data: seq<byte>, rest: string, offset: int, room: nat, l: Loading)
    requires addr + |data| <= WORD && 0 < |data| <= PER_RECORD && room >= 47
    ensures Load(DataRecord(addr, data) + "\n" + rest, offset, room, l)
         == Load(rest, offset, room, OneLoaded(l, (addr + offset) % WORD, data))
  {
    hide DataRecord, Decode, TakeLine, Load, OneLoaded;
    RecordPlain(addr, data);
    LineTaken(DataRecord(addr, data), rest, room);
    RecordBack(addr, data);
    DataLoads(DataRecord(addr, data) + "\n" + rest, DataRecord(addr, data), rest, offset, room, l, addr, data);
  }

  lemma DataLoads(s: string, line: string, rest: string, offset: int, room: nat, l: Loading, addr: nat,
                  data: seq<byte>)
    requires room > 0 && TakeLine(s, room) == (Some(line), rest) && Decode(line) == Record(Data, addr, |data|, data)
    ensures Load(s, offset, room, l) == Load(rest, offset, room, OneLoaded(l, (addr + offset) % WORD, data))
  {
    hide Decode, TakeLine, OneLoaded;
  }

  /** The records of a range, loaded with any offset. */
  lemma {:induction false} RecordsLoad(addr: nat, data: seq<byte>, rest: string, offset: int, room: nat, l: Loading)
    requires addr + |data| <= WORD && room >= 47
    ensures Load(Records(addr, data) + rest, offset, room, l)
         == Load(rest, offset, room, Loads(l, (addr + offset) % WORD, data))
    decreases |data|
  {
    hide Load, DataRecord, OneLoaded, Records, Loads;
    if data == [] {
      NoRecordsThere(addr, rest);
      LoadsNothing(l, (addr + offset) % WORD);
    } else {
      var n := Min(PER_RECORD, |data|);
      var tail := Records(addr + n, data[n..]);
      RecordsAre(addr, data, n, rest);
      LoadsStep(l, (addr + offset) % WORD, data, n);
      RecordLoads(addr, data[..n], tail + rest, offset, room, l);
      RecordsLoad(addr + n, data[n..], rest, offset, room, OneLoaded(l, (addr + offset) % WORD, data[..n]));
      Shifted(addr + offset, n);
    }
  }

  lemma NoRecordsThere(addr: nat, rest: string)
    requires addr <= WORD
    ensures Records(addr, []) + rest == rest
  {
  }

  lemma LoadsStep(l: Loading, at: nat, data: seq<byte>, n: nat)
    requires data != [] && n == Min(PER_RECORD, |data|)
    ensures Loads(l, at, data) == Loads(OneLoaded(l, at, data[..n]), (at + n) % WORD, data[n..])
  {
  }

  lemma Shifted(a: int, n: nat)
    ensures (a % WORD + n) % WORD == (a + n) % WORD
  {
  }

  lemma RecordsAre(addr: nat, data: seq<byte>, n: nat, rest: string)
    requires addr + |data| <= WORD && data != [] && n == Min(PER_RECORD, |data|)
    ensures Records(addr, data) + rest == DataRecord(addr, data[..n]) + "\n" + (Records(addr + n, data[n..]) + rest)
  {
    hide DataRecord;
  }

  const HEADER_LINE: string := "S0030000FC"
  const TRAILER_LINE: string := "S70500000000FA"

  lemma HeaderDecodes()
    ensures Decode(HEADER_LINE) == Record(Start, 0, 0, [])
  {
    hide Decode;
    var all := [3, 0, 0, 252];
    assert [3] + [0, 0] + [] == [3, 0, 0] && [3, 0, 0] + [252] == all;
    assert all[1..] == [0, 0, 252] && [0, 0, 252][1..] == [0, 252] && [0, 252][1..] == [252] && [252][1..] == [];
    assert HexBytes([252]) == "FC" && HexBytes([0, 252]) == "00FC" && HexBytes([0, 0, 252]) == "0000FC";
    assert HexBytes(all) == "030000FC";
    assert [3, 0, 0][..2] == [3, 0] && [3, 0][..1] == [3] && [3][..0] == [];
    assert Check([3, 0, 0]) == 252;
    assert [0, 0][..1] == [0] && [0][..0] == [];
    assert BigEndian([0]) == 0 && BigEndian([0, 0]) == 0;
    FrameBack('0', Start, 2, 3, [0, 0], [], HEADER_LINE);
  }

  lemma TrailerDecodes()
    ensures Decode(TRAILER_LINE) == Record(End, 0, 0, [])
  {
    hide Decode, HexBytes, Check, BigEndian;
    TrailerHex();
    TrailerCheck();
    ZeroAddress();
    assert [5] + [0, 0, 0, 0] + [] == [5, 0, 0, 0, 0] && [5, 0, 0, 0, 0] + [250] == [5, 0, 0, 0, 0, 250];
    FrameBack('7', End, 4, 5, [0, 0, 0, 0], [], TRAILER_LINE);
  }

  lemma TrailerHex()
    ensures HexBytes([5, 0, 0, 0, 0, 250]) == "0500000000FA"
  {
    hide HexBytes;
    HexOne(250);
    HexCons(0, [250]);
    assert [0] + [250] == [0, 250];
    HexCons(0, [0, 250]);
    assert [0] + [0, 250] == [0, 0, 250];
    HexCons(0, [0, 0, 250]);
    assert [0] + [0, 0, 250] == [0, 0, 0, 250];
    HexCons(0, [0, 0, 0, 250]);
    assert [0] + [0, 0, 0, 250] == [0, 0, 0, 0, 250];
    HexCons(5, [0, 0, 0, 0, 250]);
    assert [5] + [0, 0, 0, 0, 250] == [5, 0, 0, 0, 0, 250];
  }

  lemma TrailerCheck()
    ensures Check([5, 0, 0, 0, 0]) == 250
  {
    assert [5, 0, 0, 0, 0][..4] == [5, 0, 0, 0] && [5, 0, 0, 0][..3] == [5, 0, 0];
    assert [5, 0, 0][..2] == [5, 0] && [5, 0][..1] == [5] && [5][..0] == [];
  }

  lemma ZeroAddress()
    ensures BigEndian([0, 0, 0, 0]) == 0
  {
    assert [0, 0, 0, 0][..3] == [0, 0, 0] && [0, 0, 0][..2] == [0, 0] && [0, 0][..1] == [0] && [0][..0] == [];
  }

  lemma HeaderLoads(rest: string, offset: int, room: nat, l: Loading)
    requires room >= 47
    ensures Load(HEADER + rest, offset, room, l) == Load(rest, offset, room, l)
  {
    hide Decode, TakeLine;
    HeaderDecodes();
    assert HEADER + rest == HEADER_LINE + "\n" + rest;
    LineTaken(HEADER_LINE, rest, room);
  }

  lemma TrailerLoads(rest: string, offset: int, room: nat, l: Loading)
    requires room >= 47
    ensures Load(TRAILER + rest, offset, room, l) == Finished(0, (l.end - l.start + 1) % WORD, l.mem)
  {
    hide Decode, TakeLine;
    TrailerDecodes();
    assert TRAILER + rest == TRAILER_LINE + "\n" + rest;
    LineTaken(TRAILER_LINE, rest, room);
  }

  /** `start_addr = ~0`, `end_addr = 0` */
  function Begin(mem: Memory): Loading { Loading(mem, WORD - 1, 0) }

  // ---- memory and size, wherever the range is loaded ----

  /** The records together are one copy. */
  lemma {:induction false} LoadsCopy(l: Loading, at: nat, data: seq<byte>)
    requires at < WORD
    ensures Loads(l, at, data).mem == Copy(l.mem, at, data)
    decreases |data|
  {
    hide Copy;
    if data == [] {
      CopyNothing(l.mem, at);
    } else {
      var n := Min(PER_RECORD, |data|);
      LoadsCopy(OneLoaded(l, at, data[..n]), (at + n) % WORD, data[n..]);
      CopyTwice(l.mem, at, data[..n], data[n..]);
      assert data[..n] + data[n..] == data;
    }
  }

  /** Whole records first, then the others. */
  lemma {:induction false} LoadsTwice(l: Loading, at: nat, x: seq<byte>, y: seq<byte>)
    requires at < WORD && |x| % PER_RECORD == 0
    ensures Loads(l, at, x + y) == Loads(Loads(l, at, x), (at + |x|) % WORD, y)
    decreases |x|
  {
    hide OneLoaded, Loads;
    if x == [] {
      assert x + y == y;
      LoadsNothing(l, at);
    } else {
      var n := PER_RECORD;
      assert (x + y)[..n] == x[..n] && (x + y)[n..] == x[n..] + y;
      LoadsStep(l, at, x, n);
      LoadsStep(l, at, x + y, n);
      LoadsTwice(OneLoaded(l, at, x[..n]), (at + n) % WORD, x[n..], y);
      Shifted(at + n, |x| - n);
    }
  }

  /** Bounds of a range that does not run over the top of memory. */
  lemma {:induction false} LoadsBounds(l: Loading, at: nat, data: seq<byte>)
    requires at + |data| <= WORD && data != []
    ensures Loads(l, at, data).start == Min(at, l.start) && Loads(l, at, data).end == Max(at + |data| - 1, l.end)
    decreases |data|
  {
    hide OneLoaded;
    if |data| <= PER_RECORD {
      LoadsOne(l, at, data);
      OneBounds(l, at, data);
    } else {
      var n := PER_RECORD;
      OneBounds(l, at, data[..n]);
      LoadsBounds(OneLoaded(l, at, data[..n]), at + n, data[n..]);
    }
  }

  lemma OneBounds(l: Loading, at: nat, data: seq<byte>)
    requires at + |data| <= WORD && data != []
    ensures OneLoaded(l, at, data).start == Min(at, l.start)
    ensures OneLoaded(l, at, data).end == Max(at + |data| - 1, l.end)
  {
    hide Copy;
  }

  /** The record across the top. */
  lemma AcrossBounds(l: Loading, at: nat, data: seq<byte>)
    requires at < WORD && WORD < at + |data| < 2 * WORD
    ensures OneLoaded(l, at, data).start == Min(at, l.start)
    ensures OneLoaded(l, at, data).end == Max(at + |data| - 1 - WORD, l.end)
  {
    hide Copy;
  }

  function SizeOf(l: Loading): nat { (l.end - l.start + 1) % WORD }

  /** The size that is reported for n bytes loaded from `at` on. */
  function Reported(at: nat, n: nat): nat {
    var below := WORD - at;
    if n == 0 then 2
    else if n <= below || n <= PER_RECORD then n % WORD
    else if below % PER_RECORD == 0 then 0
    else if below < PER_RECORD then n - PER_RECORD
    else if n - below / PER_RECORD * PER_RECORD <= PER_RECORD then below / PER_RECORD * PER_RECORD
    else WORD - PER_RECORD
  }

  lemma SizeIs(mem: Memory, at: nat, data: seq<byte>)
    requires at < WORD && |data| <= WORD
    ensures SizeOf(Loads(Begin(mem), at, data)) == Reported(at, |data|)
  {
    hide Copy, Loads;
    var below := WORD - at;
    if data == [] {
      LoadsNothing(Begin(mem), at);
    } else if |data| <= below {
      LoadsBounds(Begin(mem), at, data);
    } else if |data| <= PER_RECORD {
      LoadsOne(Begin(mem), at, data);
    } else {
      SizeOver(mem, at, data);
    }
  }

  lemma LoadsNothing(l: Loading, at: nat)
    ensures Loads(l, at, []) == l
  {
  }

  lemma LoadsOne(l: Loading, at: nat, data: seq<byte>)
    requires 0 < |data| <= PER_RECORD
    ensures Loads(l, at, data) == OneLoaded(l, at, data)
  {
    assert data[..|data|] == data && data[|data|..] == [];
  }

  /** A range over the top: the records below it, the one across it, those at the bottom. */
  lemma SizeOver(mem: Memory, at: nat, data: seq<byte>)
    requires at < WORD && WORD - at < |data| <= WORD && |data| > PER_RECORD
    ensures SizeOf(Loads(Begin(mem), at, data)) == Reported(at, |data|)
  {
    hide Loads, OneLoaded, Reported;
    var below := WORD - at;
    var q := ReportedOver(at, |data|);
    var x, y := data[..q], data[q..];
    assert x + y == data;
    LoadsTwice(Begin(mem), at, x, y);
    var l := Loads(Begin(mem), at, x);
    if x != [] { LoadsBounds(Begin(mem), at, x); } else { LoadsNothing(Begin(mem), at); }
    if q == below {
      LoadsBounds(l, 0, y);
    } else {
      AcrossAndOn(l, at + q, y);
    }
  }

  /** The bytes of the whole records below the top. */
  lemma ReportedOver(at: nat, n: nat) returns (q: nat)
    requires at < WORD && WORD - at < n && n > PER_RECORD
    ensures q % PER_RECORD == 0 && q <= WORD - at < q + PER_RECORD
    ensures Reported(at, n) ==
            if q == WORD - at then 0
            else if q == 0 then n - PER_RECORD
            else if n - q <= PER_RECORD then q
            else WORD - PER_RECORD
  {
    q := (WORD - at) / PER_RECORD * PER_RECORD;
  }

  /** Bounds of a range whose first record goes across the top. */
  lemma AcrossAndOn(l: Loading, at: nat, data: seq<byte>)
    requires at < WORD && WORD < at + |data| <= at + WORD && WORD < at + PER_RECORD
    ensures var n := |data|;
            n <= PER_RECORD ==>
              Loads(l, at, data).start == Min(at, l.start) && Loads(l, at, data).end == Max(at + n - 1 - WORD, l.end)
    ensures var n := |data|;
            n > PER_RECORD ==>
              && Loads(l, at, data).start == Min(at + PER_RECORD - WORD, Min(at, l.start))
              && Loads(l, at, data).end == Max(at + n - 1 - WORD, l.end)
  {
    hide Loads, OneLoaded;
    if |data| <= PER_RECORD {
      LoadsOne(l, at, data);
      AcrossBounds(l, at, data);
    } else {
      var x, y := data[..PER_RECORD], data[PER_RECORD..];
      assert x + y == data;
      LoadsTwice(l, at, x, y);
      LoadsOne(l, at, x);
      AcrossBounds(l, at, x);
      LoadsBounds(OneLoaded(l, at, x), at + PER_RECORD - WORD, y);
    }
  }

  /** Loading what was saved, with any offset, puts every byte of the range where the offset says,
      touches nothing else, and reports a size. */
  lemma SavedLoads(addr: nat, data: seq<byte>, mem: Memory, offset: int, room: nat, rest: string)
    requires addr + |data| <= WORD && room >= 47
    ensures var at := (addr + offset) % WORD;
            Load(Saved(addr, data) + rest, offset, room, Begin(mem))
            == Finished(0, Reported(at, |data|), Copy(mem, at, data))
  {
    hide Load, Records, Copy, Loads, Reported;
    var records := Records(addr, data);
    var at := (addr + offset) % WORD;
    Regroup(HEADER, records, TRAILER, rest);
    HeaderLoads(records + (TRAILER + rest), offset, room, Begin(mem));
    RecordsLoad(addr, data, TRAILER + rest, offset, room, Begin(mem));
    TrailerLoads(rest, offset, room, Loads(Begin(mem), at, data));
    LoadsCopy(Begin(mem), at, data);
    SizeIs(mem, at, data);
  }

  lemma Regroup(a: string, b: string, c: string, d: string)
    ensures a + b + c + d == a + (b + (c + d))
  {
  }

  lemma CopyNothing(mem: Memory, addr: nat)
    ensures Copy(mem, addr, []) == mem
  {
  }

  /** The size is right exactly when there is something to report, less than all of memory, that
      either stays below the top or is a single record; or, by chance, all but sixteen bytes. */
  predicate SizeRight(at: nat, n: nat) {
    && 0 < n < WORD
    && (at + n <= WORD || n <= PER_RECORD
        || (n == WORD - PER_RECORD && 2 * PER_RECORD < at < WORD - PER_RECORD && at % PER_RECORD != 0))
  }

  lemma SizeIff(addr: nat, data: seq<byte>, mem: Memory, offset: int, room: nat)
    requires addr + |data| <= WORD && room >= 47
    ensures var at := (addr + offset) % WORD;
            Load(Saved(addr, data), offset, room, Begin(mem)) == Finished(0, |data|, Copy(mem, at, data))
            <==> SizeRight(at, |data|)
  {
    hide Load, Saved, Copy;
    SavedLoads(addr, data, mem, offset, room, "");
    assert Saved(addr, data) + "" == Saved(addr, data);
  }

  /** Where it was saved from, the size is right exactly when there is something to report. */
  lemma SizeIffNotEmpty(addr: nat, data: seq<byte>, mem: Memory, room: nat)
    requires addr + |data| <= WORD && |data| < WORD && room >= 47
    ensures Load(Saved(addr, data), 0, room, Begin(mem)) == Finished(0, |data|, Copy(mem, addr, data)) <==> data != []
  {
    hide Load, Saved, Copy;
    SizeIff(addr, data, mem, 0, room);
    CopyNothing(mem, addr);
    CopyNothing(mem, addr % WORD);
  }

  // ---- the loops ----

  class Board {
    var mem: Memory
    const room: nat               // SREC_MAXRECLEN

    constructor (mem: Memory, room: nat)
      ensures this.mem == mem && this.room == room
    {
      this.mem, this.room := mem, room;
    }

    /** save_serial: collects bytes and dumps a record whenever sixteen are there or the last
        one is. */
    method SaveSerial(address0: nat, count0: nat) returns (out: string)
      requires address0 < WORD && address0 + count0 <= WORD && Present(mem, address0, count0)
      ensures out == Saved(address0, Range(mem, address0, count0))
    {
      hide Records, DataRecord, HexBytes, KermitCode.Sum, Hex2, Range, Present;
      var address, count, reclen, checksum: nat, data := address0, count0, 0, 0, "";
      ghost var whole, done: nat, b: seq<byte> := Range(mem, address0, count0), 0, [];
      out := HEADER;
      NothingYet(whole, address0, out);
      var first := true;
      while first || count > 0
        invariant done + reclen + count == count0 && reclen < PER_RECORD
        invariant first || count > 0 ==> address == address0 + done
        invariant b == whole[done..done + reclen]
        invariant data == HexBytes(b) && checksum == KermitCode.Sum(b)
        invariant out + Records(address0 + done, whole[done..]) == HEADER + Records(address0, whole)
        invariant !first && count == 0 ==> reclen == 0
        decreases count + (if first then 1 else 0)
      {
        first := false;
        if count > 0 {
          RangeAt(mem, address0, count0, done + reclen);
          var c := mem[address + reclen];
          OneMore(whole, done, reclen, b, c);
          checksum := checksum + c;
          data := data + Hex2(c);
          b := b + [c];
          reclen := reclen + 1;
          count := count - 1;
        }
        if reclen == PER_RECORD || count == 0 {
          if reclen > 0 {
            var record := BuildRecord(address, b, reclen, checksum, data);
            RecordsStep(address0 + done, whole, done, reclen, out);
            out := out + record;
          }
          address := (address + reclen) % WORD;
          done := done + reclen;
          b := [];
          checksum, reclen, data := 0, 0, "";
          NoBytes();
        }
      }
      assert whole[done..] == [];
      NoRecords(address0 + done, out);
      out := out + TRAILER;
    }

    /** read_record */
    method ReadRecord(input: string, pos: nat) returns (line: Option<string>, next: nat)
      requires pos <= |input|
      ensures pos <= next <= |input|
      ensures TakeLine(input[pos..], room) == (line, input[next..])
    {
      var text := "";
      next := pos;
      ghost var whole := TakeLine(input[pos..], room);
      LineSoFar("", whole);
      while |text| < room
        invariant pos <= next <= |input| && |text| <= room
        invariant LineFrom(text, TakeLine(input[next..], room - |text|)) == whole
      {
        TakeStep(input, next, room - |text|);
        if next == |input| { return None, next; }
        var c := input[next];
        if c == '\0' || c == '\U{0003}' { return None, next; }
        next := next + 1;
        if c == '\r' || c == '\n' {
          LineEnds(text, input[next..]);
          return Some(text), next;
        }
        LineMore(text, c, TakeLine(input[next..], room - |text| - 1));
        text := text + [c];
      }
      LineEnds(text, input[next..]);
      line := Some(text);
    }

    /** load_serial: memory as the records leave it, the address of the end record and the size.
        It goes on in a defined way unless it comes to a record of a negative length. */
    method LoadSerial(input: string, offset: int) returns (ok: bool, addr: nat, size: nat, defined: bool)
      requires room > 0
      modifies this
      ensures defined <==> !old(Load(input, offset, room, Begin(mem))).Undefined?
      ensures ok <==> old(Load(input, offset, room, Begin(mem))).Finished?
      ensures mem == old(Load(input, offset, room, Begin(mem))).mem
      ensures ok ==> old(Load(input, offset, room, Begin(mem))) == Finished(addr, size, mem)
    {
      hide Decode, TakeLine, Copy;
      var startAddr: nat, endAddr: nat, pos := WORD - 1, 0, 0;
      ghost var whole := Load(input, offset, room, Begin(mem));
      assert input[0..] == input;
      while true
        invariant pos <= |input| && Load(input[pos..], offset, room, Loading(mem, startAddr, endAddr)) == whole
        decreases |input| - pos
      {
        Shorter(input[pos..], room);
        var line;
        line, pos := ReadRecord(input, pos);
        if line.None? { return false, 0, 0, true; }
        match Decode(line.value) {
          case Empty =>
          case Record(Data, at, count, data) =>
            if count < 0 { return false, 0, 0, false; }
            var store := (at + offset) % WORD;
            mem := Copy(mem, store, data);
            if store < startAddr { startAddr := store; }
            if (store + |data| - 1) % WORD > endAddr { endAddr := (store + |data| - 1) % WORD; }
          case Record(End, at, _, _) =>
            return true, at, (endAddr - startAddr + 1) % WORD, true;
          case Record(_, _, _, _) =>
          case _ =>
            return false, 0, 0, true;
        }
      }
    }

    /** The checksum and the text of one data record. */
    method BuildRecord(address: nat, ghost b: seq<byte>, reclen: nat, checksum0: nat, data: string)
      returns (record: string)
      requires address < WORD && 0 < reclen == |b| <= PER_RECORD
      requires data == HexBytes(b) && checksum0 == KermitCode.Sum(b)
      ensures record == DataRecord(address, b) + "\n" && |record| <= 47
    {
      hide HexBytes, KermitCode.Sum, Hex2, DataRecord;
      var length := 4 + reclen + 1;
      var checksum: nat := checksum0;
      checksum := checksum + length % 256;
      checksum := checksum + length / 256 % 256;
      checksum := checksum + address % 256;
      checksum := checksum + address / 0x100 % 256;
      checksum := checksum + address / 0x1_0000 % 256;
      checksum := checksum + address / 0x100_0000 % 256;
      ContentsSum(address, b);
      checksum := 255 - checksum % 256;
      RecordPrinted(address, b, length, checksum);
      record := "S3" + Hex2(length) + HexBytes(Bytes4(address)) + data + Hex2(checksum) + "\n";
      RecordPlain(address, b);
    }
  }

  lemma RangeAt(mem: Memory, addr: nat, count: nat, i: nat)
    requires Present(mem, addr, count) && i < count
    ensures addr + i in mem && Range(mem, addr, count)[i] == mem[addr + i]
  {
  }

  lemma NothingYet(whole: seq<byte>, addr: nat, out: string)
    requires addr + |whole| <= WORD
    ensures whole[0..] == whole && whole[0..0] == [] && HexBytes([]) == "" && KermitCode.Sum([]) == 0
  {
  }

  /** What a line is once its beginning has been read. */
  function LineFrom(text: string, r: (Option<string>, string)): (Option<string>, string) {
    if r.0.None? then r else (Some(text + r.0.value), r.1)
  }

  lemma LineSoFar(text: string, r: (Option<string>, string))
    requires text == ""
    ensures LineFrom(text, r) == r
  {
    if r.0.Some? { assert text + r.0.value == r.0.value; }
  }

  lemma LineEnds(text: string, rest: string)
    ensures LineFrom(text, (Some(""), rest)) == (Some(text), rest)
  {
    assert text + "" == text;
  }

  lemma LineMore(text: string, c: char, r: (Option<string>, string))
    ensures LineFrom(text, if r.0.None? then r else (Some([c] + r.0.value), r.1)) == LineFrom(text + [c], r)
  {
    if r.0.Some? { assert text + ([c] + r.0.value) == text + [c] + r.0.value; }
  }

  lemma TakeStep(s: string, p: nat, room: nat)
    requires p <= |s| && room > 0
    ensures var r := TakeLine(s[p..], room);
            if p == |s| || s[p] == '\0' || s[p] == '\U{0003}' then r == (None, s[p..])
            else if s[p] == '\r' || s[p] == '\n' then r == (Some(""), s[p + 1..])
            else
              var t := TakeLine(s[p + 1..], room - 1);
              r == if t.0.None? then t else (Some([s[p]] + t.0.value), t.1)
  {
    if p < |s| { assert s[p..][1..] == s[p + 1..]; }
  }

  lemma Shorter(s: string, room: nat)
    ensures |TakeLine(s, room).1| <= |s|
    ensures TakeLine(s, room).0.Some? && room > 0 ==> |TakeLine(s, room).1| < |s|
  {
  }

  lemma NoBytes()
    ensures HexBytes([]) == "" && KermitCode.Sum([]) == 0
  {
  }

  /** One more byte in the buffer, in its text and in its sum. */
  lemma OneMore(whole: seq<byte>, done: nat, reclen: nat, b: seq<byte>, c: byte)
    requires done + reclen < |whole| && whole[done + reclen] == c && b == whole[done..done + reclen]
    ensures b + [c] == whole[done..done + reclen + 1]
    ensures HexBytes(b + [c]) == HexBytes(b) + Hex2(c)
    ensures KermitCode.Sum(b + [c]) == KermitCode.Sum(b) + c
  {
    hide HexBytes, Hex2, KermitCode.Sum;
    HexAppend(b, [c]);
    HexOne(c);
    KermitCode.SumAppend(b, [c]);
    KermitCode.SumOne(c);
  }

  lemma RecordsStep(addr: nat, whole: seq<byte>, done: nat, reclen: nat, out: string)
    requires done + reclen <= |whole| && 0 < reclen <= PER_RECORD && addr + (|whole| - done) <= WORD
    requires reclen == PER_RECORD || done + reclen == |whole|
    ensures out + Records(addr, whole[done..]) ==
            out + (DataRecord(addr, whole[done..done + reclen]) + "\n") + Records(addr + reclen, whole[done + reclen..])
  {
    hide DataRecord;
    var rest := whole[done..];
    assert reclen == Min(PER_RECORD, |rest|);
    assert rest[..reclen] == whole[done..done + reclen] && rest[reclen..] == whole[done + reclen..];
    var r, t := DataRecord(addr, rest[..reclen]) + "\n", Records(addr + reclen, rest[reclen..]);
    assert out + (r + t) == out + r + t;
  }

  lemma NoRecords(addr: nat, out: string)
    requires addr <= WORD
    ensures out + Records(addr, []) == out
  {
  }
}

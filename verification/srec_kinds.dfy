/** The kinds of records as they stand on the line, each with its number of address bytes, and
    what a wrong check byte does. */
module SRecKinds {
  import KermitCode
  import opened SRecCode
  import opened SRecTransfer
  import opened Options

  // ---- hexadecimal ----

  /** The digits, of which the reader takes both cases and nothing else. */
  lemma HexDigits(c: char)
    ensures Hex1Bin(c) >= 0 <==> c in "0123456789ABCDEFabcdef"
    ensures forall d :: 0 <= d < 16 ==> HEX[d] == "0123456789ABCDEF"[d]
    ensures forall d :: 0 <= d < 16 ==> Hex1Bin("0123456789ABCDEF"[d]) == Hex1Bin("0123456789abcdef"[d]) == d
  {
    Digit(c);
    forall d | 0 <= d < 16 ensures Hex1Bin("0123456789ABCDEF"[d]) == Hex1Bin("0123456789abcdef"[d]) == d { Both(d); }
  }

  lemma Both(d: nat)
    requires d < 16
    ensures Hex1Bin("0123456789ABCDEF"[d]) == Hex1Bin("0123456789abcdef"[d]) == d
  {
  }

  lemma Digit(c: char)
    ensures Hex1Bin(c) >= 0 <==> c in "0123456789ABCDEFabcdef"
  {
    var all := "0123456789ABCDEFabcdef";
    if '0' <= c <= '9' {
      assert all[c as int - '0' as int] == c;
    } else if 'A' <= c <= 'F' {
      assert all[c as int - 'A' as int + 10] == c;
    } else if 'a' <= c <= 'f' {
      assert all[c as int - 'a' as int + 16] == c;
    }
  }

  // ---- the check byte ----

  /** The check byte is what makes the bytes from the length on sum to 0xFF modulo 256. */
  predicate Closes(body: seq<byte>, k: byte) { (KermitCode.Sum(body) + k) % 256 == 255 }

  lemma OnlyCheck(body: seq<byte>, k: byte)
    ensures Closes(body, k) <==> k == Check(body)
  {
  }

  /** A record on the line: an 'S', the digit of its kind, and its bytes in hexadecimal. */
  function Line(c: char, bs: seq<byte>): string { ['S', c] + HexBytes(bs) }

  /** A record of any kind is decoded exactly with that byte, and refused with any other. */
  lemma AnyRecord(c: char, kind: Kind, width: nat, len: byte, addr: seq<byte>, data: seq<byte>, k: byte)
    requires KindOf(c) == Some((kind, width)) && |addr| == width
    requires |data| == (if kind == Count then 0 else len - width - 1)
    ensures Decode(Line(c, [len] + addr + data + [k])) ==
            if Closes([len] + addr + data, k) then Record(kind, BigEndian(addr), |data|, data) else BadCheck
  {
    hide KindOf, BigEndian, Decode, HexBytes, Check;
    OnlyCheck([len] + addr + data, k);
    if k == Check([len] + addr + data) {
      FrameBack(c, kind, width, len, addr, data, Line(c, [len] + addr + data + [k]));
    } else {
      WrongByte(c, kind, width, len, addr, data, k);
    }
  }

  lemma WrongByte(c: char, kind: Kind, width: nat, len: byte, addr: seq<byte>, data: seq<byte>, k: byte)
    requires KindOf(c) == Some((kind, width)) && |addr| == width && k != Check([len] + addr + data)
    requires |data| == (if kind == Count then 0 else len - width - 1)
    ensures Decode(Line(c, [len] + addr + data + [k])) == BadCheck
  {
    hide Hex2Bin, Hex2, HexBytes, DecodeRest, Check, BigEndian, AfterS, KindOf;
    var all := addr + data + [k];
    assert [len] + addr + data + [k] == [len] + all;
    HexCons(len, all);
    HexBack(len, HexBytes(all));
    HeadIs(Line(c, [len] + all), c, Hex2(len), HexBytes(all));
    WrongRest(kind, len, width, addr, data, k);
  }

  lemma WrongRest(kind: Kind, len: byte, width: nat, addr: seq<byte>, data: seq<byte>, k: byte)
    requires |addr| == width && k != Check([len] + addr + data)
    ensures DecodeRest(kind, len, |data|, width, HexBytes(addr + data + [k])) == BadCheck
  {
    hide HexBytes, ReadBytes, Check, BigEndian;
    var all := addr + data + [k];
    BytesBack(all, "");
    assert HexBytes(all) + "" == HexBytes(all);
    Slices(len, addr, data, k);
  }

  // ---- address bytes ----

  /** Most significant byte first. */
  lemma Addresses(a: byte, b: byte, c: byte, d: byte)
    ensures BigEndian([c, d]) == 256 * c + d
    ensures BigEndian([b, c, d]) == 65536 * b + 256 * c + d
    ensures BigEndian([a, b, c, d]) == 16777216 * a + 65536 * b + 256 * c + d
  {
    LastByte([], d);
    LastByte([], c);
    LastByte([], b);
    LastByte([], a);
    LastByte([c], d);
    LastByte([b], c);
    LastByte([a], b);
    LastByte([b, c], d);
    LastByte([a, b], c);
    LastByte([a, b, c], d);
    hide BigEndian;
    assert [] + [a] == [a] && [] + [b] == [b] && [] + [c] == [c] && BigEndian([]) == 0 by { NoBytesAtAll(); }
    assert [a] + [b] == [a, b] && [b] + [c] == [b, c] && [c] + [d] == [c, d];
    assert [a, b] + [c] == [a, b, c] && [b, c] + [d] == [b, c, d] && [a, b, c] + [d] == [a, b, c, d];
  }

  lemma NoBytesAtAll()
    ensures BigEndian([]) == 0
  {
  }

  lemma LastByte(bs: seq<byte>, b: byte)
    ensures BigEndian(bs + [b]) == BigEndian(bs) * 256 + b
  {
    assert (bs + [b])[..|bs + [b]| - 1] == bs;
  }

  /** Two bytes of address for S0, S1, S5 and S9. */
  lemma ShortAddress(hi: byte, lo: byte, data: seq<byte>, k: byte)
    requires |data| <= 252
    ensures var body := [|data| + 3] + [hi, lo] + data;
            Closes(body, k) ==>
              && Decode(Line('0', body + [k])) == Record(Start, 256 * hi + lo, |data|, data)
              && Decode(Line('1', body + [k])) == Record(Data, 256 * hi + lo, |data|, data)
              && Decode(Line('9', body + [k])) == Record(End, 256 * hi + lo, |data|, data)
    ensures forall len: byte :: Closes([len] + [hi, lo], k) ==>
              Decode(Line('5', [len] + [hi, lo] + [k])) == Record(Count, 256 * hi + lo, 0, [])
  {
    hide Decode, BigEndian, HexBytes, Closes;
    Addresses(0, 0, hi, lo);
    AnyRecord('0', Start, 2, |data| + 3, [hi, lo], data, k);
    AnyRecord('1', Data, 2, |data| + 3, [hi, lo], data, k);
    AnyRecord('9', End, 2, |data| + 3, [hi, lo], data, k);
    forall len: byte ensures Closes([len] + [hi, lo], k) ==>
              Decode(Line('5', [len] + [hi, lo] + [k])) == Record(Count, 256 * hi + lo, 0, []) {
      AnyRecord('5', Count, 2, len, [hi, lo], [], k);
      assert [len] + [hi, lo] + [] == [len] + [hi, lo];
    }
  }

  /** Three for S2 and S8. */
  lemma MiddleAddress(a: byte, b: byte, c: byte, data: seq<byte>, k: byte)
    requires |data| <= 251
    ensures var body, at := [|data| + 4] + [a, b, c] + data, 65536 * a + 256 * b + c;
            Closes(body, k) ==>
              && Decode(Line('2', body + [k])) == Record(Data, at, |data|, data)
              && Decode(Line('8', body + [k])) == Record(End, at, |data|, data)
  {
    hide Decode, BigEndian, HexBytes, Closes;
    Addresses(0, a, b, c);
    AnyRecord('2', Data, 3, |data| + 4, [a, b, c], data, k);
    AnyRecord('8', End, 3, |data| + 4, [a, b, c], data, k);
  }

  /** Four for S3 and S7. */
  lemma LongAddress(a: byte, b: byte, c: byte, d: byte, data: seq<byte>, k: byte)
    requires |data| <= 250
    ensures var body, at := [|data| + 5] + [a, b, c, d] + data, 16777216 * a + 65536 * b + 256 * c + d;
            Closes(body, k) ==>
              && Decode(Line('3', body + [k])) == Record(Data, at, |data|, data)
              && Decode(Line('7', body + [k])) == Record(End, at, |data|, data)
  {
    hide Decode, BigEndian, HexBytes, Closes;
    Addresses(a, b, c, d);
    AnyRecord('3', Data, 4, |data| + 5, [a, b, c, d], data, k);
    AnyRecord('7', End, 4, |data| + 5, [a, b, c, d], data, k);
  }

  /** A length below that of address and check leaves a negative number of data bytes. */
  lemma NegativeLength(len: byte, hi: byte, lo: byte, k: byte, rest: string)
    requires len < 3
    ensures Closes([len, hi, lo], k) ==>
              Decode(Line('1', [len, hi, lo, k]) + rest) == Record(Data, 256 * hi + lo, len - 3, [])
  {
    hide Hex2Bin, Hex2, HexBytes, ReadBytes, Check, BigEndian, AfterS, Closes;
    var body := [hi, lo, k];
    OnlyCheck([len, hi, lo], k);
    Addresses(0, 0, hi, lo);
    assert [len] + body == [len, hi, lo, k] && body[..2] == [hi, lo] && [len] + body[..2] == [len, hi, lo];
    HexCons(len, body);
    HexBack(len, HexBytes(body) + rest);
    BytesBack(body, rest);
    var s := Line('1', [len, hi, lo, k]) + rest;
    assert s == ['S', '1'] + (Hex2(len) + (HexBytes(body) + rest));
    HeadIs(s, '1', Hex2(len), HexBytes(body) + rest);
  }

  /** No other digit names a kind. */
  lemma OtherKinds(c: char, len: byte, rest: string)
    requires c !in "01235789"
    ensures Decode(['S', c] + Hex2(len) + rest) == BadType
  {
    hide Hex2, Hex2Bin, DecodeRest;
    HexBack(len, rest);
    var s := ['S', c] + Hex2(len) + rest;
    assert s == ['S', c] + (Hex2(len) + rest);
    HeadIs(s, c, Hex2(len), rest);
    NoKind(c);
  }

  lemma NoKind(c: char)
    requires c !in "01235789"
    ensures KindOf(c) == None
  {
    var all := "01235789";
    assert all[0] == '0' && all[1] == '1' && all[2] == '2' && all[3] == '3';
    assert all[4] == '5' && all[5] == '7' && all[6] == '8' && all[7] == '9';
  }

  // ---- loading them ----

  /** The data of a record with two bytes of address goes there, shifted by the offset. */
  lemma ShortLoads(hi: byte, lo: byte, data: seq<byte>, k: byte, rest: string, offset: int, room: nat, l: Loading)
    requires |data| <= 252 && Closes([|data| + 3] + [hi, lo] + data, k) && room > 2 * |data| + 10
    ensures Load(Line('1', [|data| + 3] + [hi, lo] + data + [k]) + "\n" + rest, offset, room, l)
         == Load(rest, offset, room, OneLoaded(l, (256 * hi + lo + offset) % WORD, data))
  {
    hide Decode, TakeLine, Load, OneLoaded, Closes, HexBytes;
    var line := Line('1', [|data| + 3] + [hi, lo] + data + [k]);
    ShortAddress(hi, lo, data, k);
    LinePlain('1', [|data| + 3] + [hi, lo] + data + [k]);
    LineTaken(line, rest, room);
    DataLoads(line + "\n" + rest, line, rest, offset, room, l, 256 * hi + lo, data);
  }

  /** And that of one with three. */
  lemma MiddleLoads(a: byte, b: byte, c: byte, data: seq<byte>, k: byte, rest: string, offset: int, room: nat,
                    l: Loading)
    requires |data| <= 251 && Closes([|data| + 4] + [a, b, c] + data, k) && room > 2 * |data| + 12
    ensures Load(Line('2', [|data| + 4] + [a, b, c] + data + [k]) + "\n" + rest, offset, room, l)
         == Load(rest, offset, room, OneLoaded(l, (65536 * a + 256 * b + c + offset) % WORD, data))
  {
    hide Decode, TakeLine, Load, OneLoaded, Closes, HexBytes;
    var line := Line('2', [|data| + 4] + [a, b, c] + data + [k]);
    MiddleAddress(a, b, c, data, k);
    LinePlain('2', [|data| + 4] + [a, b, c] + data + [k]);
    LineTaken(line, rest, room);
    DataLoads(line + "\n" + rest, line, rest, offset, room, l, 65536 * a + 256 * b + c, data);
  }

  lemma LinePlain(c: char, bs: seq<byte>)
    requires '0' <= c <= '9'
    ensures Plain(Line(c, bs)) && |Line(c, bs)| == 2 + 2 * |bs|
  {
    HexPlain(bs);
  }

  /** A record whose check byte is wrong ends the load, and memory stays as it is. */
  lemma WrongCheckRefused(hi: byte, lo: byte, data: seq<byte>, k: byte, rest: string, offset: int, room: nat,
                          l: Loading)
    requires |data| <= 252 && !Closes([|data| + 3] + [hi, lo] + data, k) && room > 2 * |data| + 10
    ensures Load(Line('1', [|data| + 3] + [hi, lo] + data + [k]) + "\n" + rest, offset, room, l) == Refused(l.mem)
  {
    hide Decode, TakeLine, OneLoaded, Closes, HexBytes, BigEndian;
    var line := Line('1', [|data| + 3] + [hi, lo] + data + [k]);
    AnyRecord('1', Data, 2, |data| + 3, [hi, lo], data, k);
    LinePlain('1', [|data| + 3] + [hi, lo] + data + [k]);
    LineTaken(line, rest, room);
  }

  // ---- a file ----

  const FILE: string := "S1050010AABB85\nS9030000FC\n"

  /** Two bytes at 0x10, and the end. */
  method LoadFile() returns (ok: bool, addr: nat, size: nat, mem: Memory)
    ensures ok && addr == 0 && size == 2 && mem == map[0x10 := 0xAA, 0x11 := 0xBB]
  {
    hide Load;
    var board := new Board(map[], 80);
    FileLoads();
    var defined;
    ok, addr, size, defined := board.LoadSerial(FILE, 0);
    mem := board.mem;
  }

  /** An end record with two bytes of address finishes the load. */
  lemma EndLoads(hi: byte, lo: byte, k: byte, rest: string, offset: int, room: nat, l: Loading)
    requires Closes([3] + [hi, lo] + [], k) && room > 10
    ensures Load(Line('9', [3] + [hi, lo] + [] + [k]) + "\n" + rest, offset, room, l)
         == Finished(256 * hi + lo, (l.end - l.start + 1) % WORD, l.mem)
  {
    hide Decode, TakeLine, OneLoaded, Closes, HexBytes;
    ShortAddress(hi, lo, [], k);
    LinePlain('9', [3] + [hi, lo] + [] + [k]);
    LineTaken(Line('9', [3] + [hi, lo] + [] + [k]), rest, room);
  }

  lemma FileLoads()
    ensures Load(FILE, 0, 80, Begin(map[])) == Finished(0, 2, map[0x10 := 0xAA, 0x11 := 0xBB])
  {
    hide Load, Decode, TakeLine, Closes, HexBytes, Line;
    var data: seq<byte> := [0xAA, 0xBB];
    var first, last := Line('1', [5] + [0, 0x10] + data + [0x85]), Line('9', [3] + [0, 0] + [] + [0xFC]);
    FileLines();
    FileCloses();
    ShortLoads(0, 0x10, data, 0x85, last + "\n", 0, 80, Begin(map[]));
    EndLoads(0, 0, 0xFC, "", 0, 80, OneLoaded(Begin(map[]), 0x10, data));
    FileBytes();
  }

  lemma FileLines()
    ensures var first := Line('1', [5] + [0, 0x10] + [0xAA, 0xBB] + [0x85]);
            var last := Line('9', [3] + [0, 0] + [] + [0xFC]);
            FILE == first + "\n" + (last + "\n") && last + "\n" == last + "\n" + ""
  {
    hide HexBytes, Line;
    FirstLine();
    SecondLine();
    assert FILE == "S1050010AABB85" + "\n" + ("S9030000FC" + "\n");
  }

  lemma FirstLine()
    ensures Line('1', [5] + [0, 0x10] + [0xAA, 0xBB] + [0x85]) == "S1050010AABB85"
  {
    hide HexBytes;
    HexFour(0x10, 0xAA, 0xBB, 0x85);
    HexCons(0, [0x10, 0xAA, 0xBB, 0x85]);
    assert [0] + [0x10, 0xAA, 0xBB, 0x85] == [0, 0x10, 0xAA, 0xBB, 0x85];
    HexCons(5, [0, 0x10, 0xAA, 0xBB, 0x85]);
    assert [5] + [0, 0x10] + [0xAA, 0xBB] + [0x85] == [5] + [0, 0x10, 0xAA, 0xBB, 0x85];
    assert Hex2(5) == "05" && Hex2(0) == "00" && Hex2(0x10) == "10" && Hex2(0x85) == "85";
    assert Hex2(0xAA) == "AA" && Hex2(0xBB) == "BB";
    hide Hex2;
    assert "05" + ("00" + ("10" + "AA" + "BB" + "85")) == "050010AABB85";
    assert ['S', '1'] + "050010AABB85" == "S1050010AABB85";
  }

  lemma SecondLine()
    ensures Line('9', [3] + [0, 0] + [] + [0xFC]) == "S9030000FC"
  {
    hide HexBytes;
    HexFour(3, 0, 0, 0xFC);
    assert [3] + [0, 0] + [] + [0xFC] == [3, 0, 0, 0xFC];
    assert Hex2(3) == "03" && Hex2(0) == "00" && Hex2(0xFC) == "FC";
    hide Hex2;
    assert "03" + "00" + "00" + "FC" == "030000FC";
    assert ['S', '9'] + "030000FC" == "S9030000FC";
  }

  lemma HexFour(a: byte, b: byte, c: byte, d: byte)
    ensures HexBytes([a, b, c, d]) == Hex2(a) + Hex2(b) + Hex2(c) + Hex2(d)
  {
    hide HexBytes, Hex2;
    HexOne(d);
    HexCons(c, [d]);
    HexCons(b, [c, d]);
    HexCons(a, [b, c, d]);
    assert [c] + [d] == [c, d] && [b] + [c, d] == [b, c, d] && [a] + [b, c, d] == [a, b, c, d];
  }

  lemma FileCloses()
    ensures Closes([5] + [0, 0x10] + [0xAA, 0xBB], 0x85) && Closes([3] + [0, 0] + [], 0xFC)
  {
    SumOf5(5, 0, 0x10, 0xAA, 0xBB);
    SumOf5(0, 0, 3, 0, 0);
    assert [5] + [0, 0x10] + [0xAA, 0xBB] == [5, 0, 0x10, 0xAA, 0xBB];
    assert [3] + [0, 0] + [] == [3, 0, 0];
    assert [0, 0, 3, 0, 0] == [0, 0] + [3, 0, 0];
    KermitCode.SumAppend([0, 0], [3, 0, 0]);
  }

  lemma SumOf5(a: byte, b: byte, c: byte, d: byte, e: byte)
    ensures KermitCode.Sum([a, b, c, d, e]) == a as int + b + c + d + e && KermitCode.Sum([a, b]) == a as int + b
  {
    hide KermitCode.Sum;
    KermitCode.SumOne(a);
    KermitCode.SumOne(b);
    KermitCode.SumOne(c);
    KermitCode.SumOne(d);
    KermitCode.SumOne(e);
    assert [a] + [b] == [a, b] && [a, b] + [c] == [a, b, c] && [a, b, c] + [d] == [a, b, c, d];
    assert [a, b, c, d] + [e] == [a, b, c, d, e];
    KermitCode.SumAppend([a], [b]);
    KermitCode.SumAppend([a, b], [c]);
    KermitCode.SumAppend([a, b, c], [d]);
    KermitCode.SumAppend([a, b, c, d], [e]);
  }

  lemma FileBytes()
    ensures var l := OneLoaded(Begin(map[]), 0x10, [0xAA, 0xBB]);
            l.mem == map[0x10 := 0xAA, 0x11 := 0xBB] && (l.end - l.start + 1) % WORD == 2
  {
    assert [0xAA, 0xBB][1..] == [0xBB] && [0xBB][1..] == [];
    assert Copy(map[0x10 := 0xAA], 0x11, [0xBB]) == Copy(map[0x10 := 0xAA][0x11 := 0xBB], 0x12, []);
  }
}

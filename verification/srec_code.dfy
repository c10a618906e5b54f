/** S-records: hexadecimal bytes, the check over a record, and reading a record back. */
module SRecCode {
  import KermitCode
  import opened Options

  type byte = KermitCode.byte

  const WORD: nat := 0x1_0000_0000

  const HEX: string := "0123456789ABCDEF"

  /** `hex[(c>>4)&0x0f]`, `hex[c & 0x0f]`, and %02X */
  function Hex2(b: byte): (r: string)
    ensures |r| == 2
  {
    [HEX[b / 16], HEX[b % 16]]
  }

  function HexBytes(bs: seq<byte>): (r: string)
    ensures |r| == 2 * |bs|
  {
    if bs == [] then "" else Hex2(bs[0]) + HexBytes(bs[1..])
  }

  /** The four bytes of %08lX. */
  function Bytes4(a: nat): (r: seq<byte>)
    requires a < WORD
    ensures |r| == 4
  {
    [a / 0x100_0000, a / 0x1_0000 % 256, a / 0x100 % 256, a % 256]
  }

  /** Length, address and data, and the check byte that makes them sum to 0xFF. */
  function Check(bs: seq<byte>): byte { 255 - KermitCode.Sum(bs) % 256 }

  function Contents(addr: nat, data: seq<byte>): seq<byte>
    requires addr < WORD && |data| <= 250
  {
    [|data| + 5] + Bytes4(addr) + data
  }

  /** A data record with a four-byte address, without its line feed. */
  function DataRecord(addr: nat, data: seq<byte>): string
    requires addr < WORD && |data| <= 250
  {
    var c := Contents(addr, data);
    "S3" + HexBytes(c + [Check(c)])
  }

  // ---- srec_decode ----

  /** hex1_bin */
  function Hex1Bin(c: char): (r: int)
    ensures -1 <= r < 16
  {
    if '0' <= c <= '9' then c as int - '0' as int
    else if 'a' <= c <= 'f' then c as int - 'a' as int + 10
    else if 'A' <= c <= 'F' then c as int - 'A' as int + 10
    else -1
  }

  /** hex2_bin at the start of s; the string ends in a NUL, which is no digit. */
  function Hex2Bin(s: string): Option<byte> {
    if |s| < 2 || Hex1Bin(s[0]) < 0 || Hex1Bin(s[1]) < 0 then None
    else Some(Hex1Bin(s[0]) * 16 + Hex1Bin(s[1]))
  }

  /** n bytes from the start of s. */
  function ReadBytes(s: string, n: nat): (r: Option<seq<byte>>)
    ensures r.Some? ==> |r.value| == n && |s| >= 2 * n
    decreases n
  {
    if n == 0 then Some([])
    else if Hex2Bin(s).None? then None
    else
      var rest := ReadBytes(s[2..], n - 1);
      if rest.None? then None else Some([Hex2Bin(s).value] + rest.value)
  }

  datatype Kind = Start | Data | Count | End

  /** The kind of a record and how many address bytes it has. */
  function KindOf(c: char): Option<(Kind, nat)> {
    if c == '0' then Some((Start, 2))
    else if c == '1' then Some((Data, 2))
    else if c == '2' then Some((Data, 3))
    else if c == '3' then Some((Data, 4))
    else if c == '5' then Some((Count, 2))
    else if c == '7' then Some((End, 4))
    else if c == '8' then Some((End, 3))
    else if c == '9' then Some((End, 2))
    else None
  }

  /** `count` is what srec_decode leaves in *count: negative when the length is too small. */
  datatype Decoded =
    | Empty
    | NoRecord
    | BadType
    | BadCheck
    | Record(kind: Kind, addr: nat, count: int, data: seq<byte>)

  /** Skips to the 'S' and past it. */
  function AfterS(s: string): string { if s == "" then "" else if s[0] == 'S' then s[1..] else AfterS(s[1..]) }

  function BigEndian(bs: seq<byte>): nat { if bs == [] then 0 else BigEndian(bs[..|bs| - 1]) * 256 + bs[|bs| - 1] }

  function Decode(s: string): Decoded {
    var t := AfterS(s);
    if t == "" then Empty
    else if Hex2Bin(t[1..]).None? then NoRecord
    else if KindOf(t[0]).None? then BadType
    else
      var len := Hex2Bin(t[1..]).value;
      var (kind, width) := KindOf(t[0]).value;
      DecodeRest(kind, len, if kind == Count then 0 else (len as int) - width - 1, width, t[3..])
  }

  /** The address, the data and the check byte. */
  function DecodeRest(kind: Kind, len: byte, count: int, width: nat, t: string): Decoded {
    var n := if count < 0 then 0 else count;
    var bs := ReadBytes(t, width + n + 1);
    if bs.None? then NoRecord
    else
      var v := bs.value;
      if v[width + n] != Check([len] + v[..width + n]) then BadCheck
      else Record(kind, BigEndian(v[..width]), count, v[width..width + n])
  }

  // ---- records are read back ----

  lemma HexBack(b: byte, s: string)
    ensures Hex2Bin(Hex2(b) + s) == Some(b)
  {
    DigitBack(b / 16);
    DigitBack(b % 16);
    assert (Hex2(b) + s)[0] == HEX[b / 16] && (Hex2(b) + s)[1] == HEX[b % 16];
  }

  lemma DigitBack(d: nat)
    requires d < 16
    ensures Hex1Bin(HEX[d]) == d
  {
  }

  lemma {:induction false} BytesBack(bs: seq<byte>, s: string)
    ensures ReadBytes(HexBytes(bs) + s, |bs|) == Some(bs)
  {
    hide Hex2Bin, Hex2;
    if bs != [] {
      var t := HexBytes(bs[1..]) + s;
      assert HexBytes(bs) + s == Hex2(bs[0]) + t;
      assert (Hex2(bs[0]) + t)[2..] == t;
      HexBack(bs[0], t);
      BytesBack(bs[1..], s);
      assert [bs[0]] + bs[1..] == bs;
    }
  }

  lemma Bytes4Back(a: nat)
    requires a < WORD
    ensures BigEndian(Bytes4(a)) == a
  {
    var b := Bytes4(a);
    assert b[..3] == [b[0], b[1], b[2]] && b[..3][..2] == [b[0], b[1]] && b[..3][..2][..1] == [b[0]];
    assert BigEndian([b[0]]) == b[0] by { assert [b[0]][..0] == []; }
    assert BigEndian([b[0], b[1]]) == (b[0] as int) * 256 + b[1] by { assert [b[0], b[1]][..1] == [b[0]]; }
    assert BigEndian(b[..3]) == ((b[0] as int) * 256 + b[1]) * 256 + b[2];
    Bytes4Sum(a);
  }

  lemma Bytes4Sum(a: nat)
    requires a < WORD
    ensures ((a / 0x100_0000 * 256 + a / 0x1_0000 % 256) * 256 + a / 0x100 % 256) * 256 + a % 256 == a
  {
  }

  /** A record of any kind, written with the check byte it needs, is read back. */
  lemma FrameBack(c: char, kind: Kind, width: nat, len: byte, addr: seq<byte>, data: seq<byte>, s: string)
    requires KindOf(c) == Some((kind, width)) && |addr| == width
    requires |data| == (if kind == Count then 0 else len - width - 1)
    requires s == ['S', c] + HexBytes([len] + addr + data + [Check([len] + addr + data)])
    ensures Decode(s) == Record(kind, BigEndian(addr), |data|, data)
  {
    hide Hex2Bin, Hex2, HexBytes, DecodeRest, Check, BigEndian, AfterS, KindOf;
    var k := Check([len] + addr + data);
    var all := addr + data + [k];
    assert [len] + addr + data + [k] == [len] + all;
    HexCons(len, all);
    HexBack(len, HexBytes(all));
    HeadIs(s, c, Hex2(len), HexBytes(all));
    RestBack(kind, len, width, addr, data);
  }

  lemma HeadIs(s: string, c: char, len: string, rest: string)
    requires s == ['S', c] + (len + rest) && |len| == 2
    ensures AfterS(s) == s[1..] != "" && s[1..][0] == c && s[1..][1..] == len + rest && s[1..][3..] == rest
  {
  }

  /** What follows the length of a record. */
  lemma RestBack(kind: Kind, len: byte, width: nat, addr: seq<byte>, data: seq<byte>)
    requires |addr| == width
    ensures DecodeRest(kind, len, |data|, width, HexBytes(addr + data + [Check([len] + addr + data)]))
         == Record(kind, BigEndian(addr), |data|, data)
  {
    hide HexBytes, ReadBytes, Check, BigEndian, DecodeRest;
    var k := Check([len] + addr + data);
    var all := addr + data + [k];
    BytesBack(all, "");
    assert HexBytes(all) + "" == HexBytes(all);
    Slices(len, addr, data, k);
    RestIs(kind, len, |data|, width, HexBytes(all), all);
  }

  lemma Slices(len: byte, addr: seq<byte>, data: seq<byte>, k: byte)
    ensures var all, n := addr + data + [k], |addr| + |data|;
            && |all| == n + 1 && all[n] == k && [len] + all[..n] == [len] + addr + data
            && all[..|addr|] == addr && all[|addr|..n] == data
  {
    assert (addr + data + [k])[..|addr| + |data|] == addr + data;
  }

  lemma RestIs(kind: Kind, len: byte, n: nat, width: nat, t: string, v: seq<byte>)
    requires |v| == width + n + 1 && ReadBytes(t, |v|) == Some(v) && v[width + n] == Check([len] + v[..width + n])
    ensures DecodeRest(kind, len, n, width, t) == Record(kind, BigEndian(v[..width]), n, v[width..width + n])
  {
    hide ReadBytes, Check, BigEndian;
  }

  /** A data record decodes to its address and data, whatever they are. */
  lemma RecordBack(addr: nat, data: seq<byte>)
    requires addr < WORD && |data| <= 250
    ensures Decode(DataRecord(addr, data)) == Record(Data, addr, |data|, data)
  {
    hide HexBytes, Bytes4, Check, BigEndian, Decode;
    FrameBack('3', Data, 4, |data| + 5, Bytes4(addr), data, DataRecord(addr, data));
    Bytes4Back(addr);
  }

  lemma {:induction false} HexAppend(a: seq<byte>, b: seq<byte>)
    ensures HexBytes(a + b) == HexBytes(a) + HexBytes(b)
    decreases |a|
  {
    hide Hex2;
    if a == [] {
      assert a + b == b;
    } else {
      assert (a + b)[1..] == a[1..] + b;
      HexAppend(a[1..], b);
    }
  }

  lemma HexOne(b: byte)
    ensures HexBytes([b]) == Hex2(b)
  {
    assert [b][1..] == [];
    assert Hex2(b) + "" == Hex2(b);
  }

  lemma Five(s: string, a: string, b: string, d: string, e: string)
    ensures s + (a + b + d + e) == s + a + b + d + e
  {
  }

  lemma RecordIs(addr: nat, data: seq<byte>)
    requires addr < WORD && |data| <= 250
    ensures Contents(addr, data) == [|data| + 5] + Bytes4(addr) + data
    ensures DataRecord(addr, data) == "S3" + HexBytes(Contents(addr, data) + [Check(Contents(addr, data))])
  {
  }

  /** The record as it is printed, field by field. */
  lemma RecordPrinted(addr: nat, data: seq<byte>, length: byte, check: byte)
    requires addr < WORD && |data| <= 250 && length == |data| + 5 && check == Check(Contents(addr, data))
    ensures DataRecord(addr, data) == "S3" + Hex2(length) + HexBytes(Bytes4(addr)) + HexBytes(data) + Hex2(check)
  {
    hide Hex2, HexBytes, Bytes4, Check, Contents, DataRecord;
    var c := [length] + Bytes4(addr) + data;
    RecordIs(addr, data);
    HexAppend(c, [check]);
    HexAppend([length] + Bytes4(addr), data);
    HexAppend([length], Bytes4(addr));
    HexOne(length);
    HexOne(check);
    var a, b, d, e := Hex2(length), HexBytes(Bytes4(addr)), HexBytes(data), Hex2(check);
    Five("S3", a, b, d, e);
  }

  /** The sum that the check byte complements, part by part. */
  lemma ContentsSum(addr: nat, data: seq<byte>)
    requires addr < WORD && |data| <= 250
    ensures var b := Bytes4(addr);
            KermitCode.Sum(Contents(addr, data)) == |data| + 5 + ((b[3] as int) + b[2] + b[1] + b[0])
              + KermitCode.Sum(data)
  {
    hide KermitCode.Sum, Bytes4;
    var b := Bytes4(addr);
    KermitCode.SumAppend([(|data| + 5) as byte] + b, data);
    KermitCode.SumAppend([(|data| + 5) as byte], b);
    KermitCode.SumOne(|data| + 5);
    assert b == [b[0]] + [b[1]] + [b[2]] + [b[3]];
    KermitCode.SumAppend([b[0]] + [b[1]] + [b[2]], [b[3]]);
    KermitCode.SumAppend([b[0]] + [b[1]], [b[2]]);
    KermitCode.SumAppend([b[0]], [b[1]]);
    KermitCode.SumOne(b[0]);
    KermitCode.SumOne(b[1]);
    KermitCode.SumOne(b[2]);
    KermitCode.SumOne(b[3]);
  }

  lemma HexCons(b: byte, bs: seq<byte>)
    ensures HexBytes([b] + bs) == Hex2(b) + HexBytes(bs)
  {
    assert ([b] + bs)[1..] == bs;
  }

  /** Length, address, data and check byte of a record sum to 0xFF modulo 256. */
  lemma CheckedSum(addr: nat, data: seq<byte>)
    requires addr < WORD && |data| <= 250
    ensures var c := Contents(addr, data); KermitCode.Sum(c + [Check(c)]) % 256 == 255
  {
    var c := Contents(addr, data);
    assert (c + [Check(c)])[..|c|] == c;
  }
}

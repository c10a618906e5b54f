/** Characters, check sums and control prefixing of the Kermit packet layer. */
module KermitCode {
  import opened Numbers

  type byte = x: int | 0 <= x < 256

  const SOH: byte := 1        // START_CHAR
  const ETX: byte := 3        // ETX_CHAR, ^C
  const CR: byte := 13        // END_CHAR
  const SPACE: byte := 32
  const K_ESCAPE: byte := 35  // '#'
  const SEND_TYPE: byte := 83 // 'S'
  const DATA_TYPE: byte := 68 // 'D'
  const ACK_TYPE: byte := 89  // 'Y'
  const NACK_TYPE: byte := 78 // 'N'
  const BREAK_TYPE: byte := 66 // 'B'

  function Tochar(x: int): byte { (x + SPACE) % 256 }

  function Untochar(c: byte): byte { (c - SPACE) % 256 }

  /** `(c & 0xE0) == 0`: not a character of a packet. */
  predicate IsControl(c: byte) { c < SPACE }

  /** `(sum + ((sum >> 6) & 3)) & 0x3f`, made printable. */
  function Check(sum: nat): byte { Tochar((sum + sum / 64 % 4) % 64) }

  function Sum(s: seq<byte>): nat {
    if s == [] then 0 else Sum(s[..|s| - 1]) + s[|s| - 1]
  }

  lemma {:induction false} SumAppend(a: seq<byte>, b: seq<byte>)
    ensures Sum(a + b) == Sum(a) + Sum(b)
  {
    if b == [] {
      assert a + b == a;
    } else {
      assert (a + b)[..|a + b| - 1] == a + b[..|b| - 1];
      SumAppend(a, b[..|b| - 1]);
    }
  }

  lemma SumOne(c: byte)
    ensures Sum([c]) == c
  {
    assert [c][..0] == [];
  }

  lemma CheckIsPrintable(sum: nat)
    ensures SPACE <= Check(sum) < 96
  {
  }

  /** ktrans: `in & 0x60 == 0x40` drops bit 6, `in & 0x7f == 0x3f` sets it. */
  function Ktrans(c: byte): byte {
    if c / 32 % 4 == 2 then c - 64 else if c % 128 == 63 then c + 64 else c
  }

  // ---- decoding, as k_data_char does it character by character ----

  /** One more character: the bytes so far, and whether a prefix is pending. */
  function Feed(d: (seq<byte>, bool), quote: byte, c: byte): (seq<byte>, bool) {
    if d.1 then (d.0 + [Ktrans(c)], false)
    else if c == quote then (d.0, true)
    else (d.0 + [c], false)
  }

  function Decode(pending: bool, quote: byte, s: seq<byte>): (seq<byte>, bool) {
    if s == [] then ([], pending) else Feed(Decode(pending, quote, s[..|s| - 1]), quote, s[|s| - 1])
  }

  lemma DecodeMore(pending: bool, quote: byte, s: seq<byte>, c: byte)
    ensures Decode(pending, quote, s + [c]) == Feed(Decode(pending, quote, s), quote, c)
  {
    assert (s + [c])[..|s + [c]| - 1] == s;
  }

  /** What Feed adds does not depend on what is already there. */
  lemma FeedBehind(x: seq<byte>, d: (seq<byte>, bool), quote: byte, c: byte)
    ensures Feed((x + d.0, d.1), quote, c) == (x + Feed(d, quote, c).0, Feed(d, quote, c).1)
  {
    assert x + d.0 + [c] == x + (d.0 + [c]);
    assert x + d.0 + [Ktrans(c)] == x + (d.0 + [Ktrans(c)]);
  }

  /** Cutting the text anywhere, a pending prefix included, changes nothing. */
  lemma {:induction false} DecodeCut(pending: bool, quote: byte, a: seq<byte>, b: seq<byte>)
    ensures var (x, p) := Decode(pending, quote, a);
            var (y, q) := Decode(p, quote, b);
            Decode(pending, quote, a + b) == (x + y, q)
  {
    hide Feed;
    var (x, p) := Decode(pending, quote, a);
    if b == [] {
      assert a + b == a && x + [] == x;
    } else {
      var front, c := b[..|b| - 1], b[|b| - 1];
      DecodeCut(pending, quote, a, front);
      assert a + b == (a + front) + [c];
      DecodeMore(pending, quote, a + front, c);
      FeedBehind(x, Decode(p, quote, front), quote, c);
    }
  }

  // ---- encoding, as the protocol manual prescribes it ----

  /** Control characters and the prefix itself, with or without the eighth bit, are prefixed. */
  function EncodeByte(quote: byte, b: byte): seq<byte> {
    if b % 128 < 32 then [quote, b + 64]
    else if b % 128 == 127 then [quote, b - 64]
    else if b % 128 == quote % 128 then [quote, b]
    else [b]
  }

  function Encode(quote: byte, bs: seq<byte>): seq<byte> {
    if bs == [] then [] else Encode(quote, bs[..|bs| - 1]) + EncodeByte(quote, bs[|bs| - 1])
  }

  /** The prefixes for which prefixing can be undone: not '?' and not among the characters
      that control characters are moved to. */
  predicate GoodQuote(q: byte) { !(63 <= q % 128 <= 95) }

  lemma NothingDecoded(quote: byte)
    ensures Decode(false, quote, []) == ([], false)
  {
  }

  lemma PrefixedDecodes(quote: byte, c: byte)
    ensures Decode(false, quote, [quote, c]) == ([Ktrans(c)], false)
  {
    hide Ktrans, Decode;
    assert [] + [quote] == [quote] && [quote] + [c] == [quote, c];
    NothingDecoded(quote);
    DecodeMore(false, quote, [], quote);
    DecodeMore(false, quote, [quote], c);
    assert [] + [Ktrans(c)] == [Ktrans(c)];
  }

  /** ktrans on what the encoder puts behind a prefix. */
  lemma KtransUndoes(quote: byte, b: byte)
    requires GoodQuote(quote)
    ensures b % 128 < 32 ==> Ktrans(b + 64) == b
    ensures b % 128 == 127 ==> Ktrans(b - 64) == b
    ensures b % 128 == quote % 128 ==> b % 128 < 32 || b % 128 == 127 || Ktrans(b) == b
  {
    var h, low := b / 128, b % 128;
    if low < 32 {
      UniqueMod(b + 64, 4 * h + 2, low, 32);
      UniqueMod(4 * h + 2, h, 2, 4);
    } else if low == 127 {
      UniqueMod(b - 64, 4 * h + 1, 31, 32);
      UniqueMod(4 * h + 1, h, 1, 4);
      UniqueMod(b - 64, h, 63, 128);
    } else if low == quote % 128 {
      var k := if low < 64 then 1 else 3;
      UniqueMod(b, 4 * h + k, low - 32 * k, 32);
      UniqueMod(4 * h + k, h, k, 4);
    }
  }

  lemma ByteBack(quote: byte, b: byte)
    requires GoodQuote(quote)
    ensures Decode(false, quote, EncodeByte(quote, b)) == ([b], false)
  {
    hide Ktrans, Decode, GoodQuote;
    KtransUndoes(quote, b);
    var e := EncodeByte(quote, b);
    if |e| == 2 {
      PrefixedDecodes(quote, e[1]);
      assert e == [quote, e[1]];
    } else {
      PlainDecodes(quote, b);
    }
  }

  lemma PlainDecodes(quote: byte, c: byte)
    requires c != quote
    ensures Decode(false, quote, [c]) == ([c], false)
  {
    DecodeMore(false, quote, [], c);
    assert [] + [c] == [c];
  }

  /** k_data_char undoes the prefixing of every byte string. */
  lemma {:induction false} EncodeBack(quote: byte, bs: seq<byte>)
    requires GoodQuote(quote)
    ensures Decode(false, quote, Encode(quote, bs)) == (bs, false)
  {
    hide Decode, EncodeByte, GoodQuote;
    if bs == [] {
      NothingDecoded(quote);
    } else {
      var front, last := bs[..|bs| - 1], bs[|bs| - 1];
      EncodeBack(quote, front);
      ByteBack(quote, last);
      DecodeCut(false, quote, Encode(quote, front), EncodeByte(quote, last));
      assert bs == front + [last];
    }
  }

  /** These are exactly the prefixes that work; with any other one some byte is lost. */
  lemma QuoteIff(quote: byte)
    ensures (forall bs: seq<byte> :: Decode(false, quote, Encode(quote, bs)) == (bs, false)) <==> GoodQuote(quote)
  {
    if GoodQuote(quote) {
      forall bs: seq<byte> ensures Decode(false, quote, Encode(quote, bs)) == (bs, false) {
        EncodeBack(quote, bs);
      }
    } else {
      BadQuote(quote);
    }
  }

  lemma BadQuote(quote: byte)
    requires !GoodQuote(quote)
    ensures Decode(false, quote, Encode(quote, [quote])).0 != [quote]
  {
    var bs: seq<byte> := [quote];
    assert bs[..0] == [] && Encode(quote, []) == [];
    assert Encode(quote, bs) == [] + EncodeByte(quote, quote) == [quote, quote];
    PrefixedDecodes(quote, quote);
    assert Ktrans(quote) != quote;
  }

  /** The encoded text is made of packet characters only. */
  lemma {:induction false} EncodeIsPrintable(quote: byte, bs: seq<byte>)
    requires !IsControl(quote)
    ensures forall i :: 0 <= i < |Encode(quote, bs)| ==> !IsControl(Encode(quote, bs)[i])
  {
    if bs != [] {
      EncodeIsPrintable(quote, bs[..|bs| - 1]);
    }
  }
}

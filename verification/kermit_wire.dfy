/** Packets and replies as numbers on the line, spelled out without the functions that build or
    parse them, and a transfer from the first byte to the last. */
module KermitWire {
  import opened KermitCode
  import opened KermitPacket
  import opened KermitState
  import opened KermitReceiver
  import opened Options
  import opened Numbers

  // ---- the block check ----

  /** Bits 6 and 7 of a sum are added to the six bits below them. */
  lemma CheckIs(k: nat, h: nat, l: nat)
    requires h < 4 && l < 64
    ensures Check(256 * k + 64 * h + l) == 32 + (l + h) % 64
  {
    var sum := 256 * k + 64 * h + l;
    UniqueMod(sum, 4 * k + h, l, 64);
    UniqueMod(4 * k + h, k, h, 4);
    var q := (l + h) / 64;
    UniqueMod(sum + h, 4 * k + h + q, (l + h) % 64, 64);
  }

  /** The bits of a sum. */
  predicate Bits(sum: nat, k: nat, h: nat, l: nat) { sum == 256 * k + 64 * h + l && h < 4 && l < 64 }

  /** Control characters end below the blank, and drop or set bit 6 behind a prefix. */
  lemma KtransIs(h: nat, l: nat)
    requires h < 2 && l < 32
    ensures Ktrans(128 * h + 64 + l) == 128 * h + l && Ktrans(128 * h + 63) == 128 * h + 127
    ensures l < 31 ==> Ktrans(128 * h + 32 + l) == 128 * h + 32 + l
    ensures Ktrans(128 * h + l) == 128 * h + l && Ktrans(128 * h + 96 + l) == 128 * h + 96 + l
  {
    UniqueMod(128 * h + 64 + l, 4 * h + 2, l, 32);
    UniqueMod(128 * h + 63, 4 * h + 1, 31, 32);
    UniqueMod(128 * h + 32 + l, 4 * h + 1, l, 32);
    UniqueMod(128 * h + l, 4 * h, l, 32);
    UniqueMod(128 * h + 96 + l, 4 * h + 3, l, 32);
    UniqueMod(128 * h + 63, h, 63, 128);
    UniqueMod(128 * h + 32 + l, h, 32 + l, 128);
    UniqueMod(128 * h + l, h, l, 128);
    UniqueMod(128 * h + 96 + l, h, 96 + l, 128);
  }

  // ---- packets ----

  /** A short packet is accepted exactly with the check of what stands in front of it; with any
      other it is an error. */
  lemma {:induction false} ShortPacket(n: nat, kind: byte, data: seq<byte>, k: nat, h: nat, l: nat, c: byte)
    requires n < 64 && kind >= 32 && |data| <= 91 && forall i :: 0 <= i < |data| ==> data[i] >= 32
    requires Bits(35 + |data| + (32 + n) + kind + Sum(data), k, h, l)
    ensures Parse([1, 35 + |data|, 32 + n, kind] + data + [c, 13], 0) ==
            if c == 32 + (l + h) % 64 then Turn(Accepted(n, Some(kind), data), |data| + 6)
            else Turn(BodyError(n, Some(kind), data), |data| + 5)
  {
    hide Sum, Check, Parse, Body;
    var s, sum := [1, 35 + |data|, 32 + n, kind] + data + [c, 13], 35 + |data| + (32 + n) + kind;
    CheckIs(k, h, l);
    ShortHead(s, n, kind, data, c);
    DataRuns(s, n, kind, sum, data, c);
    Closing(s, 4 + |data|, n, kind, sum + Sum(data), data, c);
  }

  lemma SmallNumbers(n: nat, size: nat)
    requires n < 64 && size <= 91
    ensures Untochar(32 + n) == n && Untochar(35 + size) == size + 3
  {
  }

  lemma ShortHead(s: seq<byte>, n: nat, kind: byte, data: seq<byte>, c: byte)
    requires n < 64 && kind >= 32 && |data| <= 91 && s == [1, 35 + |data|, 32 + n, kind] + data + [c, 13]
    ensures Parse(s, 0) == Body(s, 4, n, kind, |data| + 1, 35 + |data| + (32 + n) + kind, [])
  {
    hide Body, LongHeader;
    SmallNumbers(n, |data|);
  }

  lemma DataRuns(s: seq<byte>, n: byte, kind: byte, sum: nat, data: seq<byte>, c: byte)
    requires |s| == |data| + 6 && s[4..4 + |data|] == data && forall i :: 0 <= i < |data| ==> data[i] >= 32
    ensures Body(s, 4, n, kind, |data| + 1, sum, []) == Body(s, 4 + |data|, n, kind, 1, sum + Sum(data), data)
  {
    hide Body, Sum;
    BodyRuns(s, 4, n, kind, sum, [], data);
    assert [] + data == data;
  }

  lemma Closing(s: seq<byte>, p: nat, n: byte, kind: byte, sum: nat, data: seq<byte>, c: byte)
    requires p + 2 == |s| && s[p] == c && s[p + 1] == 13 && Check(sum) >= 32
    ensures Body(s, p, n, kind, 1, sum, data) ==
            if c == Check(sum) then Turn(Accepted(n, Some(kind), data), p + 2)
            else Turn(BodyError(n, Some(kind), data), p + 1)
  {
    hide Check;
  }

  /** A long packet: its length in two digits to the base 95, and a check of its own behind them. */
  lemma LongPacket(n: nat, kind: byte, data: seq<byte>, m: nat, head: nat, k: nat, h: nat, l: nat,
                   k': nat, h': nat, l': nat)
    requires n < 64 && kind >= 32 && 91 < |data| && m == |data| + 1 < 95 * 95
    requires forall i :: 0 <= i < |data| ==> data[i] >= 32
    requires head == 32 + (32 + n) + kind + (32 + m / 95) + (32 + m % 95) && Bits(head, k, h, l)
    requires Bits(head + (32 + (l + h) % 64) + Sum(data), k', h', l')
    ensures Parse([1, 32, 32 + n, kind, 32 + m / 95, 32 + m % 95, 32 + (l + h) % 64] + data
                  + [32 + (l' + h') % 64, 13], 0)
         == Turn(Accepted(n, Some(kind), data), |data| + 9)
  {
    hide Sum, Check, Parse, On, Tochar;
    CheckIs(k, h, l);
    CheckIs(k', h', l');
    var f := LongFrameIs(n, kind, data, m, head, 32 + (l + h) % 64, 32 + (l' + h') % 64);
    Whole(f);
    FrameParses(f, 0, n, kind, data);
  }

  lemma Whole(f: seq<byte>)
    ensures On(f, 0, f)
  {
    assert f[0..0 + |f|] == f;
  }

  lemma LongFrameIs(n: nat, kind: byte, data: seq<byte>, m: nat, head: nat, a: byte, b: byte)
    returns (f: seq<byte>)
    requires n < 64 && 91 < |data| && m == |data| + 1 < 95 * 95
    requires head == 32 + (32 + n) + kind + (32 + m / 95) + (32 + m % 95)
    requires a == Check(head) && b == Check(head + a + Sum(data))
    ensures f == Frame(n, kind, data) && |f| == |data| + 9
    ensures f == [1, 32, 32 + n, kind, 32 + m / 95, 32 + m % 95, a] + data + [b, 13]
  {
    hide Sum, Check, Tochar, LongHead, Closed;
    f := Frame(n, kind, data);
    LongHeadBytes(n, kind, m, head, a);
    SumAppend(LongHead(n, kind, |data|), data);
    ClosedIs(LongHead(n, kind, |data|) + data);
  }

  lemma LongHeadBytes(n: nat, kind: byte, m: nat, head: nat, a: byte)
    requires n < 64 && 0 < m < 95 * 95 && a == Check(head)
    requires head == 32 + (32 + n) + kind + (32 + m / 95) + (32 + m % 95)
    ensures LongHead(n, kind, m - 1) == [32, 32 + n, kind, 32 + m / 95, 32 + m % 95, a]
    ensures Sum(LongHead(n, kind, m - 1)) == head + a
  {
    hide Sum, Check;
    var five := [32, 32 + n, kind, 32 + m / 95, 32 + m % 95];
    assert Tochar(0) == 32 && Tochar(n) == 32 + n && Tochar(m / 95) == 32 + m / 95 && Tochar(m % 95) == 32 + m % 95;
    SumFive(five);
    SumAppend(five, [a]);
    SumOne(a);
  }

  lemma SumFive(s: seq<byte>)
    requires |s| == 5
    ensures Sum(s) == s[0] as int + s[1] + s[2] + s[3] + s[4]
  {
    hide Sum;
    assert s == [s[0], s[1], s[2]] + [s[3]] + [s[4]];
    SumThree(s[0], s[1], s[2]);
    SumOne(s[3]);
    SumOne(s[4]);
    SumAppend([s[0], s[1], s[2]], [s[3]]);
    SumAppend([s[0], s[1], s[2]] + [s[3]], [s[4]]);
  }

  /** A character below the blank breaks a packet off where it stands. */
  lemma ControlBreaksOff(s: seq<byte>, i: nat)
    requires 0 < i < |s| && i <= 3 && s[0] == 1 && s[i] < 32 && forall j :: 0 < j < i ==> s[j] >= 32
    ensures Parse(s, 0) ==
            if i < 3 then Turn(HeaderError, i + 1) else Turn(BodyError((s[2] - 32) % 256, None, []), 4)
  {
    hide Body, LongHeader, Check;
  }

  /** And in its data. */
  lemma ControlInData(n: nat, kind: byte, length: nat, data: seq<byte>, c: byte, rest: seq<byte>)
    requires n < 64 && kind >= 32 && |data| < length <= 91 && forall i :: 0 <= i < |data| ==> data[i] >= 32
    requires c < 32
    ensures Parse([1, 35 + length, 32 + n, kind] + data + [c] + rest, 0)
         == Turn(BodyError(n, Some(kind), data), |data| + 5)
  {
    hide Body, LongHeader, Check, Sum, On;
    var s := [1, 35 + length, 32 + n, kind] + data + [c] + rest;
    SmallNumbers(n, length);
    Shorter(s, n, kind, length + 1, 35 + length + (32 + n) + kind, data, c);
  }

  lemma {:induction false} Shorter(s: seq<byte>, n: byte, kind: byte, length: nat, sum: nat, data: seq<byte>, c: byte)
    requires |s| > 4 + |data| && s[4..4 + |data|] == data && s[4 + |data|] == c && c < 32 && length > |data|
    requires forall i :: 0 <= i < |data| ==> data[i] >= 32
    ensures Body(s, 4, n, kind, length, sum, []) == Turn(BodyError(n, Some(kind), data), |data| + 5)
  {
    hide Body, Check;
    var i, acc: nat := 0, sum;
    while i < |data|
      invariant i <= |data|
      invariant Body(s, 4, n, kind, length, sum, []) == Body(s, 4 + i, n, kind, length - i, acc, data[..i])
    {
      assert s[4 + i] == s[4..4 + |data|][i];
      BodyStep(s, 4 + i, n, kind, length - i, acc, data[..i]);
      assert data[..i + 1] == data[..i] + [s[4 + i]];
      acc := acc + s[4 + i];
      i := i + 1;
    }
    assert data[..i] == data;
    BodyStep(s, 4 + i, n, kind, length - i, acc, data);
  }

  /** ^C where a packet may start ends the session; anything else that is no start character is
      passed over. */
  lemma BetweenPackets(c: byte, rest: seq<byte>)
    ensures Parse([3] + rest, 0) == Turn(Cancelled, 1)
    ensures c != 1 && c != 3 ==> Parse([c] + rest, 0) == Parse([c] + rest, 1)
  {
    hide Header;
  }

  // ---- replies ----

  /** An acknowledgement or a refusal of six bytes. */
  lemma ReplyBytes(n: nat, kind: byte, k: nat, h: nat, l: nat)
    requires n < 64 && Bits(35 + (32 + n) + kind, k, h, l)
    ensures Wire(ShortReply(n, kind), 13) == [1, 35, 32 + n, kind, 32 + (l + h) % 64, 13]
  {
    hide Sum, Check;
    SumThree(35, 32 + n, kind);
    CheckIs(k, h, l);
    assert ShortReply(n, kind) == [35, 32 + n, kind];
  }

  /** A refusal carries the number of its packet, or of the one before when none arrived. */
  lemma RefusalBytes(rx: Rx, o: Outcome, n: nat, k: nat, h: nat, l: nat)
    requires rx.padCount == 0 && rx.eol == 13 && n < 64 && Bits(35 + (32 + n) + 78, k, h, l)
    requires (o.HeaderError? && rx.n == n) || (o.BodyError? && o.n == n)
    ensures Reply(rx, o) == [1, 35, 32 + n, 78, 32 + (l + h) % 64, 13]
  {
    hide Wire, ShortReply;
    ReplyBytes(n, 78, k, h, l);
    assert Pads(0, rx.padChar) == [];
  }

  /** What is offered: packets of 94, a second, no padding, CR, '#', no eighth-bit prefix, check
      type 1, no repeats, long packets of 94 * 95 + 94. */
  lemma OfferIs()
    ensures OFFER == [126, 33, 32, 64, 45, 35, 78, 49, 78, 34, 32, 126, 126]
  {
  }

  /** The answer to parameters: as many fields as there are parameters, and all of them from ten on. */
  lemma OfferBytes(n: nat, s: seq<byte>, m: nat, k: nat, h: nat, l: nat)
    requires n < 64 && m == (if |s| >= 10 then 13 else |s|)
    requires Bits(35 + m + (32 + n) + 89 + Sum(OFFER[..m]), k, h, l)
    ensures Wire(ParamReply(n, s), 13)
         == [1, 35 + m, 32 + n, 89] + [126, 33, 32, 64, 45, 35, 78, 49, 78, 34, 32, 126, 126][..m]
            + [32 + (l + h) % 64, 13]
  {
    hide Sum, Check;
    OfferIs();
    assert OFFER[..13] == OFFER;
    var head := [35 + m, 32 + n, 89];
    assert ParamReply(n, s) == head + OFFER[..m];
    SumThree(head[0], head[1], head[2]);
    SumAppend(head, OFFER[..m]);
    CheckIs(k, h, l);
  }

  /** What the sender tells about itself: padding, its character as a control character, end of
      line and prefix; none, NUL, CR and '#' where it says nothing. */
  lemma NegotiatedIs(rx: Rx, s: seq<byte>)
    requires forall i :: 0 <= i < |s| ==> s[i] >= 32
    ensures var r := Negotiated(rx, s);
            && (|s| > 2 ==> r.padCount + 32 == s[2]) && (|s| <= 2 ==> r.padCount == 0)
            && (|s| > 3 && 64 <= s[3] < 96 ==> r.padChar + 64 == s[3]) && (|s| <= 3 ==> r.padChar == 0)
            && (|s| > 4 ==> r.eol + 32 == s[4]) && (|s| <= 4 ==> r.eol == 13)
            && (|s| > 5 ==> r.quote == s[5]) && (|s| <= 5 ==> r.quote == 35)
            && r.data == rx.data && r.n == rx.n && r.lastN == rx.lastN
            && r.savedAddr == rx.savedAddr && r.savedEsc == rx.savedEsc
  {
    if |s| > 3 && 64 <= s[3] < 96 { KtransIs(0, s[3] - 64); }
    hide Ktrans;
  }

  /** The packet number 0 that says "A", and what goes back for it. */
  lemma SmallestPacket()
    ensures Parse([1, 36, 32, 68, 65, 44, 13], 0) == Turn(Accepted(0, Some(68), [65]), 7)
  {
    hide Sum, Parse;
    SumOne(65);
    ShortPacket(0, 68, [65], 0, 3, 9, 44);
    assert [1, 36, 32, 68] + [65] + [44, 13] == [1, 36, 32, 68, 65, 44, 13];
  }

  method AcknowledgeFirst(r: Receiver)
    requires r.reply.Length == 24 && r.padCount == 0 && r.eol == 13
    modifies r`sent, r.reply
    ensures r.sent == old(r.sent) + [1, 35, 32, 89, 62, 13]
  {
    hide Wire, ShortReply;
    ReplyBytes(0, 89, 0, 2, 28);
    assert Pads(0, r.padChar) == [];
    r.SendShort(0, 89);
  }

  // ---- a transfer ----

  /** Parameters, two bytes of which one is prefixed, and the break. */
  const SENT: seq<byte> :=
    [1, 43, 32, 83, 126, 35, 32, 64, 45, 35, 78, 49, 79, 13,
     1, 38, 33, 68, 65, 35, 77, 92, 13,
     1, 35, 34, 66, 41, 13]

  const ANSWERED: seq<byte> :=
    [1, 43, 32, 89, 126, 33, 32, 64, 45, 35, 78, 49, 83, 13,
     1, 35, 33, 89, 63, 13,
     1, 35, 34, 89, 64, 13]

  /** What a sender puts on the line for a short packet. */
  lemma {:induction false} FrameBytes(n: nat, kind: byte, data: seq<byte>, k: nat, h: nat, l: nat)
    requires n < 64 && |data| <= 91 && Bits(35 + |data| + (32 + n) + kind + Sum(data), k, h, l)
    ensures Frame(n, kind, data) == [1, 35 + |data|, 32 + n, kind] + data + [32 + (l + h) % 64, 13]
  {
    hide Sum, Check, Frame;
    var c := ShortIs(n, kind, data);
    CheckIs(k, h, l);
  }

  lemma ShortIs(n: nat, kind: byte, data: seq<byte>) returns (c: byte)
    requires n < 64 && |data| <= 91
    ensures c == Check(35 + |data| + (32 + n) + kind + Sum(data))
    ensures Frame(n, kind, data) == [1, 35 + |data|, 32 + n, kind] + data + [c, 13]
  {
    hide Sum, Check, Tochar;
    var a, b := TocharOfTwo(n, |data|);
    var head := [a, b, kind];
    SumThree(a, b, kind);
    SumAppend(head, data);
    c := Check(Sum(head + data));
    Joined(head, data, c);
  }

  lemma TocharOfTwo(n: nat, size: nat) returns (a: byte, b: byte)
    requires n < 64 && size <= 91
    ensures a == Tochar(size + 3) == 35 + size && b == Tochar(n) == 32 + n
  {
    a, b := 35 + size, 32 + n;
  }

  lemma Joined(head: seq<byte>, data: seq<byte>, c: byte)
    requires |head| == 3
    ensures [SOH] + (head + data) + [c, CR] == [1, head[0], head[1], head[2]] + data + [c, 13]
  {
  }

  const PARAMETERS: seq<byte> := [126, 35, 32, 64, 45, 35, 78, 49]

  lemma PartSums()
    ensures Sum(PARAMETERS) == 464 && Sum(OFFER[..8]) == 462 && Sum([65, 35, 77]) == 177 && Sum([]) == 0
  {
    OfferIs();
    assert PARAMETERS == [126, 35, 32, 64, 45] + [35, 78, 49];
    assert OFFER[..8] == [126, 33, 32, 64, 45] + [35, 78, 49];
    hide Sum;
    SumFive([126, 35, 32, 64, 45]);
    SumFive([126, 33, 32, 64, 45]);
    SumThree(35, 78, 49);
    SumThree(65, 35, 77);
    SumAppend([126, 35, 32, 64, 45], [35, 78, 49]);
    SumAppend([126, 33, 32, 64, 45], [35, 78, 49]);
    NoSum();
  }

  lemma NoSum()
    ensures Sum([]) == 0
  {
  }

  lemma Turns()
    ensures Parse(SENT, 0) == Turn(Accepted(0, Some(83), PARAMETERS), 14)
    ensures Parse(SENT, 14) == Turn(Accepted(1, Some(68), [65, 35, 77]), 23)
    ensures Parse(SENT, 23) == Turn(Accepted(2, Some(66), []), 29)
  {
    hide Sum, Parse, Frame, On;
    PartSums();
    FrameBytes(0, 83, PARAMETERS, 2, 1, 46);
    FrameBytes(1, 68, [65, 35, 77], 1, 0, 60);
    FrameBytes(2, 66, [], 0, 2, 7);
    SentParts();
    Stands(SENT, 0, Frame(0, 83, PARAMETERS));
    Stands(SENT, 14, Frame(1, 68, [65, 35, 77]));
    Stands(SENT, 23, Frame(2, 66, []));
    FrameParses(SENT, 0, 0, 83, PARAMETERS);
    FrameParses(SENT, 14, 1, 68, [65, 35, 77]);
    FrameParses(SENT, 23, 2, 66, []);
  }

  lemma SentParts()
    ensures |SENT| == 29
    ensures SENT[0..14] == [1, 43, 32, 83] + PARAMETERS + [79, 13]
    ensures SENT[14..23] == [1, 38, 33, 68] + [65, 35, 77] + [92, 13]
    ensures SENT[23..29] == [1, 35, 34, 66] + [] + [41, 13]
  {
  }

  lemma Stands(s: seq<byte>, p: nat, f: seq<byte>)
    requires p + |f| <= |s| && s[p..p + |f|] == f
    ensures On(s, p, f)
  {
  }

  const FIRST: Outcome := Accepted(0, Some(83), PARAMETERS)
  const SECOND: Outcome := Accepted(1, Some(68), [65, 35, 77])
  const THIRD: Outcome := Accepted(2, Some(66), [])

  const ASKED: Rx := Rx(Data([], 0, false), 0, false, 0, 0, 35, 13, 0, 0)
  const LOADED: Rx := Rx(Data([65, 13], 2, false), 0, false, 1, 1, 35, 13, 0, 0)
  const ENDED: Rx := Rx(Data([65, 13], 2, false), 2, false, 2, 2, 35, 13, 0, 0)

  lemma States()
    ensures Apply(START, FIRST) == ASKED && Apply(ASKED, SECOND) == LOADED && Apply(LOADED, THIRD) == ENDED
  {
    KtransIs(0, 0);
    KtransIs(0, 13);
    hide Ktrans;
    assert [65, 35, 77][..2] == [65, 35] && [65, 35][..1] == [65] && [65][..0] == [];
  }

  lemma Answers()
    ensures Reply(ASKED, FIRST) + Reply(LOADED, SECOND) + Reply(ENDED, THIRD) == ANSWERED
  {
    hide Sum, Wire, ParamReply, ShortReply, Reply;
    PartSums();
    OfferBytes(0, PARAMETERS, 8, 2, 1, 50);
    ReplyBytes(1, 89, 0, 2, 29);
    ReplyBytes(2, 89, 0, 2, 30);
    ReplyIs(ASKED, 0, 83, PARAMETERS);
    ReplyIs(LOADED, 1, 68, [65, 35, 77]);
    ReplyIs(ENDED, 2, 66, []);
    assert [126, 33, 32, 64, 45, 35, 78, 49, 78, 34, 32, 126, 126][..8] == [126, 33, 32, 64, 45, 35, 78, 49];
  }

  /** A reply without padding. */
  lemma ReplyIs(rx: Rx, n: byte, kind: byte, s: seq<byte>)
    requires rx.padCount == 0
    ensures Reply(rx, Accepted(n, Some(kind), s))
         == Wire(if kind == 83 then ParamReply(n, s) else ShortReply(n, 89), rx.eol)
  {
    hide Wire, ParamReply, ShortReply;
    assert Pads(0, rx.padChar) == [];
  }

  /** The turns are these three, and no others. */
  lemma Exactly(os: seq<Outcome>, done: bool)
    requires OutcomesOf(SENT, 0, os) && if done then EndsOnBreak(os) else EndsOtherwise(os)
    ensures done && os == [FIRST, SECOND, THIRD]
  {
    hide Parse;
    Turns();
    assert os[0] == FIRST && OutcomesOf(SENT, 14, os[1..]);
    assert |os| > 1;
    assert os[1..][0] == os[1] == SECOND && OutcomesOf(SENT, 23, os[1..][1..]);
    assert |os| > 2;
    assert os[1..][1..][0] == os[2] == THIRD;
    assert IsBreak(os[2]);
  }

  lemma AfterThree()
    ensures var os := [FIRST, SECOND, THIRD];
            ApplyAll(START, os) == ENDED && Replies(START, os) == ANSWERED
  {
    States();
    Answers();
    ThreeTurns(START, ASKED, LOADED, ENDED, FIRST, SECOND, THIRD);
  }

  lemma ThreeTurns(r0: Rx, r1: Rx, r2: Rx, r3: Rx, x: Outcome, y: Outcome, z: Outcome)
    requires OkRx(r0) && OkRx(r1) && OkRx(r2) && Apply(r0, x) == r1 && Apply(r1, y) == r2 && Apply(r2, z) == r3
    ensures ApplyAll(r0, [x, y, z]) == r3
    ensures Replies(r0, [x, y, z]) == Reply(r1, x) + Reply(r2, y) + Reply(r3, z)
  {
    hide Apply, Reply, ApplyAll, Replies, OkRx;
    NoReplies(r0);
    ApplyOne(r0, [], x);
    ApplyOne(r0, [x], y);
    ApplyOne(r0, [x, y], z);
    ReplyOne(r0, [], x);
    ReplyOne(r0, [x], y);
    ReplyOne(r0, [x, y], z);
    assert [] + [x] == [x] && [x] + [y] == [x, y] && [x, y] + [z] == [x, y, z];
    assert [] + Reply(r1, x) == Reply(r1, x);
  }

  /** k_recv on these bytes: the two bytes in memory, the size, and every byte it answers. */
  method Transfer() returns (size: nat, done: bool, mem: seq<byte>, sent: seq<byte>)
    ensures done && size == 2 && mem == [65, 13] && sent == ANSWERED
  {
    hide OutcomesOf, ApplyAll, Replies, EndsOnBreak, EndsOtherwise;
    var r := new Receiver(SENT);
    ghost var os;
    size, done, os := r.KRecv();
    Exactly(os, done);
    AfterThree();
    mem, sent := r.mem, r.sent;
  }
}

/** Framing: what k_recv makes of the bytes on the line, and the packets that a
    sender and the reply builders put there. */
module KermitPacket {
  import opened KermitCode
  import opened Options

  /** How one turn of the receiver's main loop ends. `Starved` is a getc() that never
      returns. A body error keeps the type and the data seen before it. */
  datatype Outcome =
    | Starved
    | Cancelled
    | HeaderError
    | BodyError(n: byte, kind: Option<byte>, data: seq<byte>)
    | Accepted(n: byte, kind: Option<byte>, data: seq<byte>)

  datatype Turn = Turn(outcome: Outcome, used: nat)

  /** Data characters, block check and end of line; `length` counts data and check. */
  function Body(s: seq<byte>, p: nat, n: byte, kind: byte, length: int, sum: nat, data: seq<byte>): Turn
    requires p <= |s|
    decreases |s| - p
  {
    if p == |s| then Turn(Starved, p)
    else if IsControl(s[p]) then Turn(BodyError(n, Some(kind), data), p + 1)
    else if length > 1 then Body(s, p + 1, n, kind, length - 1, sum + s[p], data + [s[p]])
    else if s[p] != Check(sum) then Turn(BodyError(n, Some(kind), data), p + 1)
    else if p + 1 == |s| then Turn(Starved, p + 1)
    else if s[p + 1] != CR then Turn(BodyError(n, Some(kind), data), p + 2)
    else Turn(Accepted(n, Some(kind), data), p + 2)
  }

  /** The two length characters and the header check of a long packet. */
  function LongHeader(s: seq<byte>, p: nat, n: byte, kind: byte, sum: nat): Turn
    requires p <= |s|
  {
    if p == |s| then Turn(Starved, p)
    else if IsControl(s[p]) then Turn(BodyError(n, Some(kind), []), p + 1)
    else if p + 1 == |s| then Turn(Starved, p + 1)
    else if IsControl(s[p + 1]) then Turn(BodyError(n, Some(kind), []), p + 2)
    else if p + 2 == |s| then Turn(Starved, p + 2)
    else if IsControl(s[p + 2]) || s[p + 2] != Check(sum + s[p] + s[p + 1]) then
      Turn(BodyError(n, Some(kind), []), p + 3)
    else Body(s, p + 3, n, kind, Untochar(s[p]) * 95 + Untochar(s[p + 1]), sum + s[p] + s[p + 1] + s[p + 2], [])
  }

  function Sum3(a: nat, b: nat, c: nat): nat { a + b + c }

  /** Length, sequence number and type, from just behind the start character. */
  function Header(s: seq<byte>, p: nat): Turn
    requires p <= |s|
  {
    if p == |s| then Turn(Starved, p)
    else if IsControl(s[p]) then Turn(HeaderError, p + 1)
    else if p + 1 == |s| then Turn(Starved, p + 1)
    else if IsControl(s[p + 1]) then Turn(HeaderError, p + 2)
    else
      var n := Untochar(s[p + 1]);
      if p + 2 == |s| then Turn(Starved, p + 2)
      else if IsControl(s[p + 2]) then Turn(BodyError(n, None, []), p + 3)
      else
        var sum := Sum3(s[p], s[p + 1], s[p + 2]);
        if Untochar(s[p]) == 0 then LongHeader(s, p + 3, n, s[p + 2], sum)
        else Body(s, p + 3, n, s[p + 2], Untochar(s[p]) - 2, sum, [])
  }

  /** One whole turn: wait for a start character, then take a packet. */
  function Parse(s: seq<byte>, p: nat): Turn
    requires p <= |s|
    decreases |s| - p
  {
    if p == |s| then Turn(Starved, p)
    else if s[p] == SOH then Header(s, p + 1)
    else if s[p] == ETX then Turn(Cancelled, p + 1)
    else Parse(s, p + 1)
  }

  /** Bytes that start nothing are passed over. */
  lemma {:induction false} ParseSkips(s: seq<byte>, p: nat, q: nat)
    requires p <= q <= |s| && forall i :: p <= i < q ==> s[i] != SOH && s[i] != ETX
    ensures Parse(s, p) == Parse(s, q)
    decreases q - p
  {
    if p < q { ParseSkips(s, p + 1, q); }
  }

  // ---- packets ----

  predicate Printable(s: seq<byte>) { forall i :: 0 <= i < |s| ==> !IsControl(s[i]) }

  /** A packet of section 6: short when it fits 94 characters, otherwise long. */
  function Frame(n: byte, kind: byte, data: seq<byte>): seq<byte> {
    if |data| + 3 <= 94 then Closed([Tochar(|data| + 3), Tochar(n), kind] + data)
    else Closed(LongHead(n, kind, |data|) + data)
  }

  function LongHead(n: byte, kind: byte, size: nat): seq<byte> {
    var h := [Tochar(0), Tochar(n), kind, Tochar((size + 1) / 95), Tochar((size + 1) % 95)];
    h + [Check(Sum(h))]
  }

  /** Start character, contents, block check, end of line. */
  function Closed(core: seq<byte>): seq<byte> { [SOH] + core + [Check(Sum(core)), CR] }

  /** A packet a sender may build. */
  predicate Sendable(n: byte, kind: byte, data: seq<byte>) {
    n < 224 && !IsControl(kind) && Printable(data) && |data| + 1 < 95 * 95
  }

  /** f stands in s at p. */
  ghost predicate On(s: seq<byte>, p: nat, f: seq<byte>) {
    p + |f| <= |s| && s[p..p + |f|] == f
  }

  lemma OnSplit(s: seq<byte>, p: nat, a: seq<byte>, b: seq<byte>)
    requires On(s, p, a + b)
    ensures On(s, p, a) && On(s, p + |a|, b)
  {
    var whole := s[p..p + |a + b|];
    assert s[p..p + |a|] == whole[..|a|];
    assert s[p + |a|..p + |a| + |b|] == whole[|a|..];
  }

  lemma OnChar(s: seq<byte>, p: nat, f: seq<byte>, i: nat)
    requires On(s, p, f) && i < |f|
    ensures p + i < |s| && s[p + i] == f[i]
  {
    assert s[p..p + |f|][i] == s[p + i];
  }

  /** The receiver runs through the data part, whatever follows it. */
  lemma {:induction false} BodyRuns(s: seq<byte>, p: nat, n: byte, kind: byte, sum: nat, before: seq<byte>,
                                    data: seq<byte>)
    requires On(s, p, data) && Printable(data)
    ensures p + |data| <= |s|
    ensures Body(s, p, n, kind, |data| + 1, sum, before)
         == Body(s, p + |data|, n, kind, 1, sum + Sum(data), before + data)
    decreases |data|
  {
    hide Check;
    if data == [] {
      assert before + data == before;
    } else {
      var c, tail := data[0], data[1..];
      assert data == [c] + tail;
      OnSplit(s, p, [c], tail);
      OnChar(s, p, data, 0);
      SumAppend([c], tail);
      SumOne(c);
      BodyRuns(s, p + 1, n, kind, sum + c, before + [c], tail);
      assert before + [c] + tail == before + data;
    }
  }

  /** The data part is taken to its end when its block check is right. */
  lemma BodyTakes(s: seq<byte>, p: nat, n: byte, kind: byte, sum: nat, data: seq<byte>)
    requires On(s, p, data) && Printable(data)
    requires p + |data| + 2 <= |s| && s[p + |data|] == Check(sum + Sum(data)) && s[p + |data| + 1] == CR
    ensures Body(s, p, n, kind, |data| + 1, sum, []) == Turn(Accepted(n, Some(kind), data), p + |data| + 2)
  {
    BodyRuns(s, p, n, kind, sum, [], data);
    CheckIsPrintable(sum + Sum(data));
    hide Check, On, Sum;
    assert [] + data == data;
  }

  lemma TocharBack(n: byte)
    requires n < 224
    ensures Untochar(Tochar(n)) == n && !IsControl(Tochar(n))
  {
  }

  lemma OnParts(s: seq<byte>, p: nat, head: seq<byte>, data: seq<byte>, c: byte)
    requires On(s, p, [SOH] + (head + data) + [c, CR])
    ensures var q := p + 1 + |head|;
            && q + |data| + 2 <= |s|
            && s[p] == SOH && On(s, p + 1, head) && On(s, q, data)
            && s[q + |data|] == c && s[q + |data| + 1] == CR
  {
    hide On;
    var tail := [c, CR];
    Regroup([SOH], head, data, tail);
    OnFour(s, p, [SOH], head, data, tail);
    OnChar(s, p, [SOH], 0);
    OnChar(s, p + 1 + |head| + |data|, tail, 0);
    OnChar(s, p + 1 + |head| + |data|, tail, 1);
  }

  lemma ClosedIs(core: seq<byte>)
    ensures Closed(core) == [SOH] + core + [Check(Sum(core)), CR]
  {
  }

  lemma OnBody(s: seq<byte>, p: nat, head: seq<byte>, data: seq<byte>)
    requires On(s, p, Closed(head + data))
    ensures var q := p + 1 + |head|;
            && q + |data| + 2 <= |s|
            && s[p] == SOH && On(s, p + 1, head) && On(s, q, data)
            && s[q + |data|] == Check(Sum(head) + Sum(data)) && s[q + |data| + 1] == CR
  {
    hide Check, Sum, On, Closed;
    SumAppend(head, data);
    ClosedIs(head + data);
    OnParts(s, p, head, data, Check(Sum(head + data)));
  }

  lemma Regroup(a: seq<byte>, b: seq<byte>, c: seq<byte>, d: seq<byte>)
    ensures a + (b + c) + d == a + (b + (c + d))
  {
  }

  lemma OnFour(s: seq<byte>, p: nat, a: seq<byte>, b: seq<byte>, c: seq<byte>, d: seq<byte>)
    requires On(s, p, a + (b + (c + d)))
    ensures On(s, p, a) && On(s, p + |a|, b) && On(s, p + |a| + |b|, c) && On(s, p + |a| + |b| + |c|, d)
  {
    hide On;
    OnSplit(s, p, a, b + (c + d));
    OnSplit(s, p + |a|, b, c + d);
    OnSplit(s, p + |a| + |b|, c, d);
  }


  lemma SumThree(a: byte, b: byte, c: byte)
    ensures Sum([a, b, c]) == Sum3(a, b, c)
  {
    SumOne(a);
    SumOne(b);
    SumOne(c);
    assert [a, b, c] == [a] + [b] + [c];
    SumAppend([a] + [b], [c]);
    SumAppend([a], [b]);
  }

  lemma ShortFrameParses(s: seq<byte>, p: nat, n: byte, kind: byte, data: seq<byte>)
    requires Sendable(n, kind, data) && |data| + 3 <= 94
    requires On(s, p, Closed([Tochar(|data| + 3), Tochar(n), kind] + data))
    ensures Parse(s, p) == Turn(Accepted(n, Some(kind), data), p + |data| + 6)
  {
    hide Check, Tochar, Untochar, Body, LongHeader, On, Closed;
    var head := [Tochar(|data| + 3), Tochar(n), kind];
    OnBody(s, p, head, data);
    TocharBack(n);
    TocharBack(|data| + 3);
    SumThree(head[0], head[1], head[2]);
    OnChar(s, p + 1, head, 0);
    OnChar(s, p + 1, head, 1);
    OnChar(s, p + 1, head, 2);
    BodyTakes(s, p + 4, n, kind, Sum(head), data);
  }

  lemma LongHeadIs(n: byte, kind: byte, size: nat)
    requires n < 224 && size + 1 < 95 * 95
    ensures var h := LongHead(n, kind, size);
            && |h| == 6 && h[0] == SPACE && h[1] == Tochar(n) && h[2] == kind
            && !IsControl(h[3]) && !IsControl(h[4]) && !IsControl(h[5])
            && Untochar(h[3]) * 95 + Untochar(h[4]) == size + 1
            && h[5] == Check(Sum3(h[0], h[1], h[2]) + h[3] + h[4])
            && Sum(h) == Sum3(h[0], h[1], h[2]) + h[3] + h[4] + h[5]
  {
    hide Check;
    var a, b := (size + 1) / 95, (size + 1) % 95;
    TocharBack(a);
    TocharBack(b);
    hide Tochar, Untochar;
    var h3 := [Tochar(0), Tochar(n), kind];
    var h5 := h3 + [Tochar(a)] + [Tochar(b)];
    SumThree(h3[0], h3[1], h3[2]);
    SumOne(Tochar(a));
    SumOne(Tochar(b));
    SumAppend(h3 + [Tochar(a)], [Tochar(b)]);
    SumAppend(h3, [Tochar(a)]);
    assert h5 == [Tochar(0), Tochar(n), kind, Tochar(a), Tochar(b)];
    CheckIsPrintable(Sum(h5));
    SumAppend(h5, [Check(Sum(h5))]);
    SumOne(Check(Sum(h5)));
    ZeroChar();
  }

  lemma ZeroChar()
    ensures Tochar(0) == SPACE && Untochar(SPACE) == 0
  {
  }

  lemma LongFrameParses(s: seq<byte>, p: nat, n: byte, kind: byte, data: seq<byte>)
    requires Sendable(n, kind, data)
    requires On(s, p, Closed(LongHead(n, kind, |data|) + data))
    ensures Parse(s, p) == Turn(Accepted(n, Some(kind), data), p + |data| + 9)
  {
    hide Check, Tochar, Untochar, Body, On, Closed, LongHead;
    var h := LongHead(n, kind, |data|);
    LongHeadIs(n, kind, |data|);
    OnBody(s, p, h, data);
    TocharBack(n);
    ZeroChar();
    OnChar(s, p + 1, h, 0);
    OnChar(s, p + 1, h, 1);
    OnChar(s, p + 1, h, 2);
    OnChar(s, p + 1, h, 3);
    OnChar(s, p + 1, h, 4);
    OnChar(s, p + 1, h, 5);
    BodyTakes(s, p + 7, n, kind, Sum(h), data);
    LongIs(s, p + 4, n, kind, Sum3(h[0], h[1], h[2]));
  }

  lemma LongIs(s: seq<byte>, p: nat, n: byte, kind: byte, sum: nat)
    requires p + 3 <= |s| && !IsControl(s[p]) && !IsControl(s[p + 1]) && !IsControl(s[p + 2])
    requires s[p + 2] == Check(sum + s[p] + s[p + 1])
    ensures LongHeader(s, p, n, kind, sum)
         == Body(s, p + 3, n, kind, Untochar(s[p]) * 95 + Untochar(s[p + 1]), sum + s[p] + s[p + 1] + s[p + 2], [])
  {
    hide Body;
  }

  /** The receiver takes every packet a sender may build, short or long, for what it is. */
  lemma FrameParses(s: seq<byte>, p: nat, n: byte, kind: byte, data: seq<byte>)
    requires Sendable(n, kind, data) && On(s, p, Frame(n, kind, data))
    ensures Parse(s, p) == Turn(Accepted(n, Some(kind), data), p + |Frame(n, kind, data)|)
  {
    hide Check, Tochar, Untochar, Body, On, Header, Parse;
    if |data| + 3 <= 94 {
      ShortFrameParses(s, p, n, kind, data);
    } else {
      LongFrameParses(s, p, n, kind, data);
    }
  }
}

/** The replies read back: k_recv's own framing and block check applied to what the
    reply builders send. */
module KermitReplies {
  import opened KermitCode
  import opened KermitPacket
  import opened KermitState
  import opened Options

  /** A reply is read back as what it says exactly when its end of line is the receiver's
      own; any other one is an error, and an end of line of 0 leaves the reader waiting. */
  lemma ReplyParses(s: seq<byte>, p: nat, n: byte, kind: byte, fields: seq<byte>, eol: byte)
    requires n < 224 && !IsControl(kind) && Printable(fields) && |fields| + 3 <= 94
    requires On(s, p, Wire([Tochar(3 + |fields|), Tochar(n), kind] + fields, eol))
    requires |s| == p + |Wire([Tochar(3 + |fields|), Tochar(n), kind] + fields, eol)|
    ensures Parse(s, p).outcome ==
            if eol == 0 then Starved
            else if eol == CR then Accepted(n, Some(kind), fields)
            else BodyError(n, Some(kind), fields)
  {
    hide Check, Sum, On, Tochar, Untochar, Body, LongHeader;
    var head := [Tochar(3 + |fields|), Tochar(n), kind];
    var check := Check(Sum(head + fields));
    var tail := if eol == 0 then [] else [eol];
    WireIs(head + fields, eol);
    Regroup([SOH], head, fields, [check] + tail);
    assert [SOH] + (head + fields) + [check] + tail == [SOH] + (head + fields) + ([check] + tail);
    OnFour(s, p, [SOH], head, fields, [check] + tail);
    hide Wire;
    var q := p + 4;
    OnChar(s, p, [SOH], 0);
    OnChar(s, p + 1, head, 0);
    OnChar(s, p + 1, head, 1);
    OnChar(s, p + 1, head, 2);
    OnChar(s, q + |fields|, [check] + tail, 0);
    if eol != 0 { OnChar(s, q + |fields|, [check] + tail, 1); }
    TocharBack(n);
    TocharBack(3 + |fields|);
    SumThree(head[0], head[1], head[2]);
    SumAppend(head, fields);
    CheckIsPrintable(Sum(head + fields));
    BodyRuns(s, q, n, kind, Sum(head), [], fields);
    assert [] + fields == fields;
    LastTwo(s, q + |fields|, n, kind, Sum(head + fields), fields, eol);
  }

  lemma WireIs(core: seq<byte>, eol: byte)
    ensures Wire(core, eol) == [SOH] + core + [Check(Sum(core))] + (if eol == 0 then [] else [eol])
  {
  }

  lemma LastTwo(s: seq<byte>, p: nat, n: byte, kind: byte, sum: nat, data: seq<byte>, eol: byte)
    requires p < |s| && s[p] == Check(sum) && !IsControl(s[p])
    requires if eol == 0 then p + 1 == |s| else p + 2 == |s| && s[p + 1] == eol
    ensures Body(s, p, n, kind, 1, sum, data).outcome ==
            if eol == 0 then Starved
            else if eol == CR then Accepted(n, Some(kind), data)
            else BodyError(n, Some(kind), data)
  {
    hide Check;
  }

  /** Padding in front of a reply is skipped, unless it is a start character or ^C. */
  lemma {:induction false} PadsSkipped(count: nat, c: byte, w: seq<byte>)
    requires c != SOH && c != ETX
    ensures On(Pads(count, c) + w, count, w) && |Pads(count, c)| == count
    ensures Parse(Pads(count, c) + w, 0) == Parse(Pads(count, c) + w, count)
  {
    hide Header;
    PadsAre(count, c);
    var s := Pads(count, c) + w;
    var i := count;
    assert s[count..] == w;
    while i > 0
      invariant 0 <= i <= count && Parse(s, i) == Parse(s, count)
    {
      i := i - 1;
      assert s[i] == c;
    }
  }

  lemma {:induction false} PadsAre(count: nat, c: byte)
    ensures |Pads(count, c)| == count && forall i :: 0 <= i < count ==> Pads(count, c)[i] == c
  {
    if count > 0 { PadsAre(count - 1, c); }
  }

  /** The padding does not look like a packet or a ^C. */
  predicate PlainPads(count: nat, c: byte) { count == 0 || (c != SOH && c != ETX) }

  /** A start character in the padding makes the reply a spoilt packet, a ^C ends the session. */
  lemma PadsMislead(count: nat, c: byte, w: seq<byte>)
    requires !PlainPads(count, c) && w != [] && w[0] == SOH
    ensures Parse(Pads(count, c) + w, 0).outcome == if c == SOH then HeaderError else Cancelled
  {
    hide Check, Body, LongHeader;
    PadsAre(count, c);
    var s := Pads(count, c) + w;
    assert s[0] == c;
    if c == SOH { assert s[1] == SOH; }
  }

  /** Every reply to a packet, padding and all, is accepted as the acknowledgement it is, with
      its parameters, if and only if the sender asked for the usual end of line and for padding
      that is neither a start character nor a ^C. */
  lemma ReplyReadsBack(rx: Rx, n: byte, kind: Option<byte>, s: seq<byte>)
    requires n < 224
    ensures var fields := if kind == Some(SEND_TYPE) then Offered(s) else [];
            Parse(Reply(rx, Accepted(n, kind, s)), 0).outcome == Accepted(n, Some(ACK_TYPE), fields)
            <==> rx.eol == CR && PlainPads(rx.padCount, rx.padChar)
  {
    var fields := if kind == Some(SEND_TYPE) then Offered(s) else [];
    OfferIsPrintable();
    assert Printable(fields);
    var w := Wire([Tochar(3 + |fields|), Tochar(n), ACK_TYPE] + fields, rx.eol);
    assert Reply(rx, Accepted(n, kind, s)) == Pads(rx.padCount, rx.padChar) + w by {
      if kind != Some(SEND_TYPE) {
        assert [Tochar(3), Tochar(n), ACK_TYPE] + [] == [Tochar(3), Tochar(n), ACK_TYPE];
      }
    }
    Read(rx.padCount, rx.padChar, w, n, ACK_TYPE, fields, rx.eol);
  }

  /** The same for a refusal, whose number is that of the packet or, when none arrived, of the
      one before. */
  lemma NackReadsBack(rx: Rx, o: Outcome)
    requires (o.HeaderError? && rx.n < 224) || (o.BodyError? && o.n < 224)
    ensures var n := if o.HeaderError? then rx.n else o.n;
            Parse(Reply(rx, o), 0).outcome == Accepted(n, Some(NACK_TYPE), [])
            <==> rx.eol == CR && PlainPads(rx.padCount, rx.padChar)
  {
    var n := if o.HeaderError? then rx.n else o.n;
    assert [Tochar(3), Tochar(n), NACK_TYPE] + [] == [Tochar(3), Tochar(n), NACK_TYPE];
    Read(rx.padCount, rx.padChar, Wire([Tochar(3), Tochar(n), NACK_TYPE], rx.eol), n, NACK_TYPE, [], rx.eol);
  }

  lemma Read(count: nat, c: byte, w: seq<byte>, n: byte, kind: byte, fields: seq<byte>, eol: byte)
    requires n < 224 && !IsControl(kind) && Printable(fields) && |fields| + 3 <= 94
    requires w == Wire([Tochar(3 + |fields|), Tochar(n), kind] + fields, eol)
    ensures Parse(Pads(count, c) + w, 0).outcome == Accepted(n, Some(kind), fields)
            <==> eol == CR && PlainPads(count, c)
  {
    hide Wire, Parse, Check, Tochar, On;
    if !PlainPads(count, c) {
      WireIs([Tochar(3 + |fields|), Tochar(n), kind] + fields, eol);
      PadsMislead(count, c, w);
      return;
    }
    if count > 0 {
      PadsSkipped(count, c, w);
    } else {
      NoPads(c, w);
    }
    PadsAre(count, c);
    ReplyParses(Pads(count, c) + w, count, n, kind, fields, eol);
  }

  lemma NoPads(c: byte, w: seq<byte>)
    ensures Pads(0, c) + w == w && On(w, 0, w)
  {
    assert w[0..0 + |w|] == w;
  }

  lemma OfferIsPrintable()
    ensures Printable(OFFER)
  {
  }
}

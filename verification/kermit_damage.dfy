/** What damage to the headers of packets does to a transfer: the exact condition, seen from
    the number of bytes that are missing or there twice, and the smallest runs that go wrong. */
module KermitDamage {
  import opened KermitCode
  import opened KermitPacket
  import opened KermitState
  import opened KermitProtocol
  import opened Options

  /** No packet ends on a prefix that belongs to the next one. */
  ghost predicate SelfContained(ps: seq<Packet>) {
    forall i :: 0 <= i <= |ps| ==> !Said(ps, i).esc
  }

  /** What a packet adds. */
  function Size(ps: seq<Packet>, i: nat): int
    requires i < |ps|
  {
    |Said(ps, i + 1).bytes| - |Said(ps, i).bytes|
  }

  /** Where the current packet starts, or will start. */
  function Base(sys: Sys): nat { if Seen(sys) then sys.rx.savedAddr else sys.rx.data.addr }

  /** How many bytes are missing before it; negative when some are there twice. */
  function Lack(sys: Sys, ps: seq<Packet>): int
    requires sys.cur <= |ps|
  {
    |Said(ps, sys.cur).bytes| - Base(sys)
  }

  /** The invariant that is left when bytes may be missing or repeated: positions, not contents. */
  ghost predicate Loose(sys: Sys, ps: seq<Packet>) {
    && OkRx(sys.rx) && sys.cur <= |ps| && !sys.rx.data.esc && !sys.rx.savedEsc
    && (sys.done ==> sys.rx.data.addr + Lack(sys, ps) == |Said(ps, |ps|).bytes|)
    && (sys.cur == |ps| ==> !Seen(sys))
    && (sys.rx.quote == Said(ps, sys.cur).quote || (sys.cur < |ps| && sys.rx.quote == Said(ps, sys.cur + 1).quote))
  }

  /** A packet taken from a state without a pending prefix adds its size to the position. */
  lemma AcceptedAdds(rx: Rx, n: byte, ps: seq<Packet>, i: nat)
    requires OkRx(rx) && i < |ps| && !rx.data.esc && !rx.savedEsc && SelfContained(ps)
    requires ps[i].kind != SEND_TYPE ==> rx.quote == Said(ps, i).quote
    ensures var r := Apply(rx, Accepted(n, Some(ps[i].kind), ps[i].data));
            && OkRx(r) && !r.data.esc && !r.savedEsc && r.lastN == n
            && r.savedAddr == (if n == rx.lastN then rx.savedAddr else rx.data.addr)
            && r.data.addr == r.savedAddr + Size(ps, i) && Size(ps, i) >= 0
            && r.quote == Said(ps, i + 1).quote
  {
    hide Said, Decode, DataChars, Params;
    var p, o := ps[i], Accepted(n, Some(ps[i].kind), ps[i].data);
    var b := Begin(rx, n);
    DataCharsDecode(b.data, b.quote, p.data);
    FedKeeps(b, Some(p.kind), p.data);
    NegotiatedQuote(Taken(rx, o), p.data);
    QuoteStays(ps, i);
    assert !Said(ps, i).esc && !Said(ps, i + 1).esc;
  }

  lemma IntactLack(sys: Sys, ps: seq<Packet>, e: Event)
    requires Script(ps) && SelfContained(ps) && Loose(sys, ps) && Legal(sys, ps, e) && e.Intact?
    ensures Loose(Step(sys, ps, e), ps) && Lack(Step(sys, ps, e), ps) == Lack(sys, ps)
    ensures Harmless(sys, e)
  {
    hide Said, Parse, Frame, Read, Apply;
    var i, p := sys.cur, ps[sys.cur];
    var n := Number(i);
    WholeFrame(n, p);
    QuoteStays(ps, i);
    AcceptedAdds(sys.rx, n, ps, i);
    NextNumber(i);
    if p.kind == BREAK_TYPE { BreakSaysNothing(ps); }
  }

  lemma BreakSaysNothing(ps: seq<Packet>)
    requires Script(ps)
    ensures Size(ps, |ps| - 1) == 0
  {
    assert Said(ps, |ps|) == Read(Said(ps, |ps| - 1), ps[|ps| - 1]);
  }

  /** A failed packet leaves nothing but the checkpoint its number made. */
  lemma FailedLeaves(rx: Rx, o: Outcome)
    requires OkRx(rx) && o.BodyError?
    ensures var b, r := Begin(rx, o.n), Apply(rx, o);
            && OkRx(r) && r.data.addr == r.savedAddr == b.savedAddr && r.data.esc == r.savedEsc == b.savedEsc
            && r.lastN == b.lastN && r.quote == rx.quote
  {
    hide Begin, Fed;
    BeginOkay(rx, o.n);
    var b := Begin(rx, o.n);
    FedSaves(b, Text(b.data.mem[..b.savedAddr], b.savedEsc, 0), o.kind, o.data);
    FedLeaves(b, o.kind, o.data);
  }

  lemma BeginOkay(rx: Rx, n: byte)
    requires OkRx(rx)
    ensures OkRx(Begin(rx, n)) && Begin(rx, n).quote == rx.quote
  {
  }

  lemma FedLeaves(rx: Rx, kind: Option<byte>, s: seq<byte>)
    requires OkRx(rx)
    ensures var r := Fed(rx, kind, s);
            r.savedAddr == rx.savedAddr && r.savedEsc == rx.savedEsc && r.lastN == rx.lastN && r.quote == rx.quote
  {
    hide DataChars;
  }

  /** The event cannot make the receiver repeat: a wrong number is that of the last packet, and
      so goes back to the checkpoint. */
  predicate Back(sys: Sys, e: Event) {
    e.NumberDamaged? ==> Parse(e.line, 0).outcome.BodyError? && Parse(e.line, 0).outcome.n == sys.rx.lastN
  }

  /** The event cannot make the receiver lose: a number arrives, and a wrong one is not that of
      the last packet, and so makes a checkpoint. */
  predicate Forth(sys: Sys, e: Event) {
    && !e.HeaderDamaged?
    && (e.NumberDamaged? ==> Parse(e.line, 0).outcome.BodyError? && Parse(e.line, 0).outcome.n != sys.rx.lastN)
  }

  /** What an event that is not an intact copy does to the number of missing bytes. */
  lemma OtherLack(sys: Sys, ps: seq<Packet>, e: Event)
    requires Script(ps) && Loose(sys, ps) && Legal(sys, ps, e) && !e.Intact?
    ensures Loose(Step(sys, ps, e), ps)
    ensures Back(sys, e) ==> Lack(Step(sys, ps, e), ps) >= Lack(sys, ps)
    ensures Back(sys, e) && !Harmless(sys, e) ==> Lack(Step(sys, ps, e), ps) > Lack(sys, ps)
    ensures Forth(sys, e) ==> Lack(Step(sys, ps, e), ps) <= Lack(sys, ps)
    ensures Forth(sys, e) && !Harmless(sys, e) ==> Lack(Step(sys, ps, e), ps) < Lack(sys, ps)
  {
    hide Said, Read, Frame, Fed, Parse;
    if e.Damaged? || e.NumberDamaged? {
      FailedLeaves(sys.rx, Parse(e.line, 0).outcome);
    } else if e.Lost? {
      DullStarves(e.line);
    }
  }

  ghost predicate BackRun(sys: Sys, ps: seq<Packet>, es: seq<Event>)
    requires OkRx(sys.rx) && LegalRun(sys, ps, es)
    decreases |es|
  {
    es != [] ==> Back(sys, es[0]) && BackRun(Step(sys, ps, es[0]), ps, es[1..])
  }

  ghost predicate ForthRun(sys: Sys, ps: seq<Packet>, es: seq<Event>)
    requires OkRx(sys.rx) && LegalRun(sys, ps, es)
    decreases |es|
  {
    es != [] ==> Forth(sys, es[0]) && ForthRun(Step(sys, ps, es[0]), ps, es[1..])
  }

  /** Once bytes are missing they stay missing, and a harmful damage makes some missing. */
  lemma {:induction false} LackStays(sys: Sys, ps: seq<Packet>, es: seq<Event>)
    requires Script(ps) && SelfContained(ps) && Loose(sys, ps) && LegalRun(sys, ps, es) && BackRun(sys, ps, es)
    requires Lack(sys, ps) > 0 || (Lack(sys, ps) == 0 && !HarmlessRun(sys, ps, es))
    ensures var r := Run(sys, ps, es); Loose(r, ps) && Lack(r, ps) > 0
    decreases |es|
  {
    hide Step, Harmless, Script, SelfContained, Lack, Said, Parse, Back, Loose;
    if es != [] {
      LooseOk(sys, ps);
      if es[0].Intact? { IntactLack(sys, ps, es[0]); } else { OtherLack(sys, ps, es[0]); }
      LackStays(Step(sys, ps, es[0]), ps, es[1..]);
    }
  }

  lemma LooseOk(sys: Sys, ps: seq<Packet>)
    ensures Loose(sys, ps) ==> OkRx(sys.rx) && sys.cur <= |ps|
  {
  }

  /** Once bytes are repeated they stay repeated, and a harmful damage repeats some. */
  lemma {:induction false} ExcessStays(sys: Sys, ps: seq<Packet>, es: seq<Event>)
    requires Script(ps) && SelfContained(ps) && Loose(sys, ps) && LegalRun(sys, ps, es) && ForthRun(sys, ps, es)
    requires Lack(sys, ps) < 0 || (Lack(sys, ps) == 0 && !HarmlessRun(sys, ps, es))
    ensures var r := Run(sys, ps, es); Loose(r, ps) && Lack(r, ps) < 0
    decreases |es|
  {
    hide Step, Harmless, Script, SelfContained, Lack, Said, Parse, Forth, Loose;
    if es != [] {
      LooseOk(sys, ps);
      if es[0].Intact? { IntactLack(sys, ps, es[0]); } else { OtherLack(sys, ps, es[0]); }
      ExcessStays(Step(sys, ps, es[0]), ps, es[1..]);
    }
  }

  lemma BeginLoose(ps: seq<Packet>)
    ensures Loose(BEGIN, ps) && Lack(BEGIN, ps) == 0
  {
  }

  /** When no wrong number makes a checkpoint, the transfer is right exactly when no damage rolled
      back a receiver that stood behind its checkpoint while the sender had moved on; otherwise
      bytes are missing. */
  lemma DeliveredIff(ps: seq<Packet>, es: seq<Event>)
    requires Script(ps) && SelfContained(ps) && LegalRun(BEGIN, ps, es) && Run(BEGIN, ps, es).done
    requires BackRun(BEGIN, ps, es)
    ensures OkRx(Run(BEGIN, ps, es).rx)
    ensures var text := Content(Run(BEGIN, ps, es).rx.data);
            && (text == Said(ps, |ps|).bytes <==> HarmlessRun(BEGIN, ps, es))
            && (!HarmlessRun(BEGIN, ps, es) ==> |text| < |Said(ps, |ps|).bytes|)
  {
    hide Step, Said, LegalRun, HarmlessRun, Run, Script, SelfContained, BackRun;
    BeginLoose(ps);
    if HarmlessRun(BEGIN, ps, es) {
      Delivered(ps, es);
    } else {
      LackStays(BEGIN, ps, es);
    }
  }

  /** When every number arrives and no wrong one is the last packet's, the transfer is right
      exactly when no wrong number met a receiver that had taken the packet; otherwise bytes are
      there twice. */
  lemma OnceIff(ps: seq<Packet>, es: seq<Event>)
    requires Script(ps) && SelfContained(ps) && LegalRun(BEGIN, ps, es) && Run(BEGIN, ps, es).done
    requires ForthRun(BEGIN, ps, es)
    ensures OkRx(Run(BEGIN, ps, es).rx)
    ensures var text := Content(Run(BEGIN, ps, es).rx.data);
            && (text == Said(ps, |ps|).bytes <==> HarmlessRun(BEGIN, ps, es))
            && (!HarmlessRun(BEGIN, ps, es) ==> |text| > |Said(ps, |ps|).bytes|)
  {
    hide Step, Said, LegalRun, HarmlessRun, Run, Script, SelfContained, ForthRun;
    BeginLoose(ps);
    if HarmlessRun(BEGIN, ps, es) {
      Delivered(ps, es);
    } else {
      ExcessStays(BEGIN, ps, es);
    }
  }

  const LOSS: seq<Packet> := [Packet(DATA_TYPE, [65]), Packet(BREAK_TYPE, [])]

  /** After the first packet has been received and acknowledged. */
  const ONE_IN: Sys := Sys(Rx(Data([65], 1, false), 0, false, 0, 0, K_ESCAPE, CR, 0, 0), 1, false)

  /** After the spoilt header. */
  const ROLLED_BACK: Sys := Sys(Rx(Data([65], 0, false), 0, false, 0, 0, K_ESCAPE, CR, 0, 0), 1, false)

  lemma LossOne()
    ensures Legal(BEGIN, LOSS, Intact(true)) && Step(BEGIN, LOSS, Intact(true)) == ONE_IN
  {
    hide Frame, Parse;
    assert Printable([65]);
    WholeFrame(0, LOSS[0]);
    assert [65][..0] == [];
  }

  lemma LossTwo()
    ensures Legal(ONE_IN, LOSS, HeaderDamaged([SOH, 0]))
    ensures Step(ONE_IN, LOSS, HeaderDamaged([SOH, 0])) == ROLLED_BACK
  {
    assert Parse([SOH, 0], 0) == Turn(HeaderError, 2);
  }

  lemma LossThree()
    ensures Legal(ROLLED_BACK, LOSS, Intact(true))
    ensures var s := Step(ROLLED_BACK, LOSS, Intact(true)); OkRx(s.rx) && s.done && s.rx.data.addr == 0
  {
    hide Frame, Parse;
    WholeFrame(1, LOSS[1]);
  }

  /** The smallest case: one byte, acknowledged, then a spoilt length character. The byte
      is gone, though everything after it is received and acknowledged. */
  lemma HeaderDamageLoses()
    ensures var es := [Intact(true), HeaderDamaged([SOH, 0]), Intact(true)];
            && LegalRun(BEGIN, LOSS, es) && BackRun(BEGIN, LOSS, es) && Run(BEGIN, LOSS, es).done
            && Run(BEGIN, LOSS, es).rx.data.addr == 0 && Said(LOSS, |LOSS|).bytes == [65]
  {
    hide Step, Legal, Said;
    var e0, e1, e2 := Intact(true), HeaderDamaged([SOH, 0]), Intact(true);
    var es := [e0, e1, e2];
    LossOne();
    LossTwo();
    LossThree();
    SmallSaid(LOSS);
    Last(Step(ROLLED_BACK, LOSS, e2), LOSS);
    assert es[1..] == [e1, e2] && [e1, e2][1..] == [e2] && [e2][1..] == [];
    assert LegalRun(ROLLED_BACK, LOSS, [e2]) && Run(ROLLED_BACK, LOSS, [e2]) == Step(ROLLED_BACK, LOSS, e2);
    assert LegalRun(ONE_IN, LOSS, [e1, e2]) && Run(ONE_IN, LOSS, [e1, e2]) == Run(ROLLED_BACK, LOSS, [e2]);
    assert BackRun(ROLLED_BACK, LOSS, [e2]);
    assert BackRun(ONE_IN, LOSS, [e1, e2]);
  }

  /** A copy of the first packet whose number arrives as 1, cut short. */
  const WRONG_NUMBER: seq<byte> := [SOH, 36, 33, DATA_TYPE, 0]

  /** The first packet received, its acknowledgement lost; then the wrong number; then again. */
  const UNHEARD: Sys := Sys(Rx(Data([65], 1, false), 0, false, 0, 0, K_ESCAPE, CR, 0, 0), 0, false)
  const MISLED: Sys := Sys(Rx(Data([65], 1, false), 1, false, 1, 1, K_ESCAPE, CR, 0, 0), 0, false)
  const TWICE: Sys := Sys(Rx(Data([65, 65], 2, false), 1, false, 0, 0, K_ESCAPE, CR, 0, 0), 1, false)

  lemma RepeatOne()
    ensures Legal(BEGIN, LOSS, Intact(false)) && Step(BEGIN, LOSS, Intact(false)) == UNHEARD
  {
    hide Frame, Parse;
    assert Printable([65]);
    WholeFrame(0, LOSS[0]);
    assert [65][..0] == [];
  }

  lemma RepeatTwo()
    ensures Legal(UNHEARD, LOSS, NumberDamaged(WRONG_NUMBER))
    ensures Step(UNHEARD, LOSS, NumberDamaged(WRONG_NUMBER)) == MISLED
    ensures Forth(UNHEARD, NumberDamaged(WRONG_NUMBER))
  {
    assert Body(WRONG_NUMBER, 4, 1, DATA_TYPE, 2, 36 + 33 + 68, []) == Turn(BodyError(1, Some(DATA_TYPE), []), 5);
    assert Header(WRONG_NUMBER, 1) == Turn(BodyError(1, Some(DATA_TYPE), []), 5);
    assert Parse(WRONG_NUMBER, 0) == Turn(BodyError(1, Some(DATA_TYPE), []), 5);
  }

  lemma RepeatThree()
    ensures Legal(MISLED, LOSS, Intact(true)) && Step(MISLED, LOSS, Intact(true)) == TWICE
  {
    hide Frame, Parse;
    assert Printable([65]);
    WholeFrame(0, LOSS[0]);
    assert [65][..0] == [];
  }

  lemma RepeatFour()
    ensures Legal(TWICE, LOSS, Intact(true))
    ensures var s := Step(TWICE, LOSS, Intact(true));
            OkRx(s.rx) && s.done && s.rx.data == Data([65, 65], 2, false)
  {
    hide Frame, Parse;
    WholeFrame(1, LOSS[1]);
  }

  /** The other way round: an acknowledgement is lost, the number of the next copy arrives
      wrong, and the transfer ends well with the byte in memory twice. */
  lemma NumberDamageRepeats()
    ensures var es := [Intact(false), NumberDamaged(WRONG_NUMBER), Intact(true), Intact(true)];
            && LegalRun(BEGIN, LOSS, es) && ForthRun(BEGIN, LOSS, es) && Run(BEGIN, LOSS, es).done
            && Run(BEGIN, LOSS, es).rx.data == Data([65, 65], 2, false) && Said(LOSS, |LOSS|).bytes == [65]
  {
    hide Step, Legal, Said;
    var e0, e1, e2 := Intact(false), NumberDamaged(WRONG_NUMBER), Intact(true);
    var es := [e0, e1, e2, e2];
    RepeatOne();
    RepeatTwo();
    RepeatThree();
    RepeatFour();
    SmallSaid(LOSS);
    Last(Step(TWICE, LOSS, e2), LOSS);
    assert es[1..] == [e1, e2, e2] && [e1, e2, e2][1..] == [e2, e2] && [e2, e2][1..] == [e2] && [e2][1..] == [];
    assert LegalRun(TWICE, LOSS, [e2]) && Run(TWICE, LOSS, [e2]) == Step(TWICE, LOSS, e2);
    assert LegalRun(MISLED, LOSS, [e2, e2]) && Run(MISLED, LOSS, [e2, e2]) == Run(TWICE, LOSS, [e2]);
    assert LegalRun(UNHEARD, LOSS, [e1, e2, e2]) && Run(UNHEARD, LOSS, [e1, e2, e2]) == Run(MISLED, LOSS, [e2, e2]);
    assert ForthRun(TWICE, LOSS, [e2]);
    assert ForthRun(MISLED, LOSS, [e2, e2]);
    assert ForthRun(UNHEARD, LOSS, [e1, e2, e2]);
  }

  // ---- a lost byte and a repeated one ----

  const MIXED: seq<Packet> := [Packet(DATA_TYPE, [65]), Packet(DATA_TYPE, [65]), Packet(BREAK_TYPE, [])]

  /** A copy of the second packet whose number arrives as 2, cut short. */
  const WRONG_AGAIN: seq<byte> := [SOH, 36, 34, DATA_TYPE, 0]

  /** The second packet received where the first one was, its acknowledgement lost; then the wrong
      number; then again. */
  const INSTEAD: Sys := Sys(Rx(Data([65], 1, false), 0, false, 1, 1, K_ESCAPE, CR, 0, 0), 1, false)
  const SAVED: Sys := Sys(Rx(Data([65], 1, false), 1, false, 2, 2, K_ESCAPE, CR, 0, 0), 1, false)
  const BOTH: Sys := Sys(Rx(Data([65, 65], 2, false), 1, false, 1, 1, K_ESCAPE, CR, 0, 0), 2, false)

  lemma MixedOne()
    ensures Legal(BEGIN, MIXED, Intact(true)) && Step(BEGIN, MIXED, Intact(true)) == ONE_IN
    ensures Legal(ONE_IN, MIXED, HeaderDamaged([SOH, 0])) && !Harmless(ONE_IN, HeaderDamaged([SOH, 0]))
    ensures Step(ONE_IN, MIXED, HeaderDamaged([SOH, 0])) == ROLLED_BACK
  {
    hide Frame, Parse;
    assert Printable([65]);
    WholeFrame(0, MIXED[0]);
    assert [65][..0] == [];
    LossTwo();
  }

  lemma MixedTwo()
    ensures Legal(ROLLED_BACK, MIXED, Intact(false)) && Step(ROLLED_BACK, MIXED, Intact(false)) == INSTEAD
    ensures Legal(SAVED, MIXED, Intact(true)) && Step(SAVED, MIXED, Intact(true)) == BOTH
  {
    hide Frame, Parse;
    assert Printable([65]);
    WholeFrame(1, MIXED[1]);
    assert [65][..0] == [];
  }

  lemma MixedThree()
    ensures Legal(INSTEAD, MIXED, NumberDamaged(WRONG_AGAIN))
    ensures Step(INSTEAD, MIXED, NumberDamaged(WRONG_AGAIN)) == SAVED
  {
    assert Body(WRONG_AGAIN, 4, 2, DATA_TYPE, 2, 36 + 34 + 68, []) == Turn(BodyError(2, Some(DATA_TYPE), []), 5);
    assert Header(WRONG_AGAIN, 1) == Turn(BodyError(2, Some(DATA_TYPE), []), 5);
    assert Parse(WRONG_AGAIN, 0) == Turn(BodyError(2, Some(DATA_TYPE), []), 5);
  }

  lemma MixedFour()
    ensures Legal(BOTH, MIXED, Intact(true))
    ensures var s := Step(BOTH, MIXED, Intact(true));
            OkRx(s.rx) && s.done && s.rx.data == Data([65, 65], 2, false)
  {
    hide Frame, Parse;
    WholeFrame(2, MIXED[2]);
  }

  lemma MixedSaid()
    ensures Said(MIXED, |MIXED|).bytes == [65, 65] && Script(MIXED) && SelfContained(MIXED)
  {
    PlainByte();
    assert Said(MIXED, 0) == Text([], false, K_ESCAPE);
    assert Said(MIXED, 1) == Read(Said(MIXED, 0), MIXED[0]);
    assert Said(MIXED, 2) == Read(Said(MIXED, 1), MIXED[1]);
    assert Said(MIXED, 3) == Read(Said(MIXED, 2), MIXED[2]);
    assert [] + [65] == [65] && [65] + [65] == [65, 65];
  }

  const MIXED_RUN: seq<Event> :=
    [Intact(true), HeaderDamaged([SOH, 0]), Intact(false), NumberDamaged(WRONG_AGAIN), Intact(true), Intact(true)]

  lemma MixedTail()
    ensures var es := MIXED_RUN[2..];
            && LegalRun(ROLLED_BACK, MIXED, es) && Run(ROLLED_BACK, MIXED, es).done
            && OkRx(Run(ROLLED_BACK, MIXED, es).rx)
            && Run(ROLLED_BACK, MIXED, es).rx.data == Data([65, 65], 2, false)
  {
    hide Step, Legal, Said;
    var e2, e3, e4 := Intact(false), NumberDamaged(WRONG_AGAIN), Intact(true);
    MixedTwo();
    MixedThree();
    MixedFour();
    Last(Step(BOTH, MIXED, e4), MIXED);
    assert MIXED_RUN[2..] == [e2, e3, e4, e4] && [e2, e3, e4, e4][1..] == [e3, e4, e4];
    assert [e3, e4, e4][1..] == [e4, e4] && [e4, e4][1..] == [e4] && [e4][1..] == [];
    assert LegalRun(BOTH, MIXED, [e4]) && Run(BOTH, MIXED, [e4]) == Step(BOTH, MIXED, e4);
    assert LegalRun(SAVED, MIXED, [e4, e4]) && Run(SAVED, MIXED, [e4, e4]) == Run(BOTH, MIXED, [e4]);
    assert LegalRun(INSTEAD, MIXED, [e3, e4, e4]) && Run(INSTEAD, MIXED, [e3, e4, e4]) == Run(SAVED, MIXED, [e4, e4]);
  }

  /** A spoilt header loses the first packet, a wrong number repeats the second, and as they say
      the same the text is right: with both kinds of damage neither condition is needed. */
  lemma DamageCancels()
    ensures Script(MIXED) && SelfContained(MIXED)
    ensures LegalRun(BEGIN, MIXED, MIXED_RUN) && Run(BEGIN, MIXED, MIXED_RUN).done
    ensures !HarmlessRun(BEGIN, MIXED, MIXED_RUN)
    ensures OkRx(Run(BEGIN, MIXED, MIXED_RUN).rx)
    ensures Content(Run(BEGIN, MIXED, MIXED_RUN).rx.data) == Said(MIXED, |MIXED|).bytes
  {
    hide Step, Legal, Said, Harmless;
    MixedOne();
    MixedTail();
    MixedSaid();
    var tail := MIXED_RUN[1..];
    assert MIXED_RUN[1..][1..] == MIXED_RUN[2..];
    assert LegalRun(ONE_IN, MIXED, tail) && Run(ONE_IN, MIXED, tail) == Run(ROLLED_BACK, MIXED, MIXED_RUN[2..]);
    assert !HarmlessRun(ONE_IN, MIXED, tail);
  }

  lemma Last(sys: Sys, ps: seq<Packet>)
    requires OkRx(sys.rx)
    ensures LegalRun(sys, ps, []) && Run(sys, ps, []) == sys
  {
  }

  lemma SmallSaid(ps: seq<Packet>)
    requires ps == [Packet(DATA_TYPE, [65]), Packet(BREAK_TYPE, [])]
    ensures Said(ps, 2).bytes == [65]
  {
    PlainByte();
    assert Said(ps, 0) == Text([], false, K_ESCAPE);
    assert Said(ps, 1) == Read(Said(ps, 0), ps[0]);
    assert Said(ps, 2) == Read(Said(ps, 1), ps[1]);
    assert [] + [65] == [65];
  }

  lemma PlainByte()
    ensures Decode(false, K_ESCAPE, [65]) == ([65], false)
  {
    PlainDecodes(K_ESCAPE, 65);
  }
}

/** k_recv at the end of the line: on the bytes of any run of the protocol, the receiver as
    it runs ends on the break with what the packets say in memory. */
module KermitWhole {
  import opened KermitCode
  import opened KermitPacket
  import opened KermitState
  import opened KermitProtocol
  import opened KermitReceiver

  // ---- a turn depends only on the bytes it uses ----

  function Shift(t: Turn, p: nat): Turn { Turn(t.outcome, t.used + p) }

  lemma {:induction false} BodyIn(s: seq<byte>, p: nat, f: seq<byte>, q: nat, n: byte, kind: byte, length: int,
                                  sum: nat, data: seq<byte>)
    requires On(s, p, f) && q <= |f|
    requires Body(f, q, n, kind, length, sum, data).outcome != Starved
    ensures Body(s, p + q, n, kind, length, sum, data) == Shift(Body(f, q, n, kind, length, sum, data), p)
    decreases |f| - q
  {
    hide Check, Body, On;
    Fits(s, p, f);
    BodyStep(f, q, n, kind, length, sum, data);
    BodyStep(s, p + q, n, kind, length, sum, data);
    if q < |f| { OnChar(s, p, f, q); }
    if q + 1 < |f| { OnChar(s, p, f, q + 1); }
    if q < |f| && !IsControl(f[q]) && length > 1 {
      BodyIn(s, p, f, q + 1, n, kind, length - 1, sum + f[q], data + [f[q]]);
    }
  }

  lemma Fits(s: seq<byte>, p: nat, f: seq<byte>)
    requires On(s, p, f)
    ensures p + |f| <= |s|
  {
  }

  lemma LongIn(s: seq<byte>, p: nat, f: seq<byte>, q: nat, n: byte, kind: byte, sum: nat)
    requires On(s, p, f) && q <= |f| && LongHeader(f, q, n, kind, sum).outcome != Starved
    requires p + |f| <= |s|
    ensures LongHeader(s, p + q, n, kind, sum) == Shift(LongHeader(f, q, n, kind, sum), p)
  {
    hide Check, Body, On, Untochar;
    if q < |f| { OnChar(s, p, f, q); }
    if q + 1 < |f| { OnChar(s, p, f, q + 1); }
    if q + 2 < |f| {
      OnChar(s, p, f, q + 2);
      if !IsControl(f[q]) && !IsControl(f[q + 1]) && !IsControl(f[q + 2]) && f[q + 2] == Check(sum + f[q] + f[q + 1]) {
        BodyIn(s, p, f, q + 3, n, kind, Untochar(f[q]) * 95 + Untochar(f[q + 1]), sum + f[q] + f[q + 1] + f[q + 2], []);
      }
    }
  }

  lemma HeaderIn(s: seq<byte>, p: nat, f: seq<byte>, q: nat)
    requires On(s, p, f) && q <= |f| && Header(f, q).outcome != Starved
    requires p + |f| <= |s|
    ensures Header(s, p + q) == Shift(Header(f, q), p)
  {
    hide Body, On, LongHeader, Untochar;
    if q < |f| { OnChar(s, p, f, q); }
    if q + 1 < |f| { OnChar(s, p, f, q + 1); }
    if q + 2 < |f| {
      OnChar(s, p, f, q + 2);
      if !IsControl(f[q]) && !IsControl(f[q + 1]) && !IsControl(f[q + 2]) {
        var n, sum := Untochar(f[q + 1]), Sum3(f[q], f[q + 1], f[q + 2]);
        if Untochar(f[q]) == 0 {
          LongIn(s, p, f, q + 3, n, f[q + 2], sum);
        } else {
          BodyIn(s, p, f, q + 3, n, f[q + 2], Untochar(f[q]) - 2, sum, []);
        }
      }
    }
  }

  lemma {:induction false} ParseIn(s: seq<byte>, p: nat, f: seq<byte>, q: nat)
    requires On(s, p, f) && q <= |f| && Parse(f, q).outcome != Starved
    requires p + |f| <= |s|
    ensures Parse(s, p + q) == Shift(Parse(f, q), p)
    decreases |f| - q
  {
    hide Header, On;
    OnChar(s, p, f, q);
    if f[q] == SOH {
      HeaderIn(s, p, f, q + 1);
    } else if f[q] != ETX {
      ParseIn(s, p, f, q + 1);
    }
  }

  // ---- a run, as the receiver hears it ----

  /** Everything that arrives during a run. */
  ghost function Heard(sys: Sys, ps: seq<Packet>, es: seq<Event>): seq<byte>
    requires OkRx(sys.rx) && LegalRun(sys, ps, es)
    decreases |es|
  {
    if es == [] then [] else Line(sys, ps, es[0]) + Heard(Step(sys, ps, es[0]), ps, es[1..])
  }

  /** The turns the receiver takes: none for a copy that is lost. */
  ghost function Turns(sys: Sys, ps: seq<Packet>, es: seq<Event>): seq<Outcome>
    requires OkRx(sys.rx) && LegalRun(sys, ps, es)
    decreases |es|
  {
    if es == [] then []
    else
      var rest := Turns(Step(sys, ps, es[0]), ps, es[1..]);
      if es[0].Lost? then rest else [Parse(Line(sys, ps, es[0]), 0).outcome] + rest
  }

  /** One event's bytes on the line are one turn, and leave the receiver behind them. */
  lemma EventTurn(s: seq<byte>, p: nat, sys: Sys, ps: seq<Packet>, e: Event, rest: seq<Outcome>)
    requires Script(ps) && Legal(sys, ps, e) && !e.Lost?
    requires On(s, p, Line(sys, ps, e)) && p + |Line(sys, ps, e)| <= |s|
    requires OutcomesOf(s, p + |Line(sys, ps, e)|, rest)
    ensures OutcomesOf(s, p, [Parse(Line(sys, ps, e), 0).outcome] + rest)
  {
    hide Parse, Frame, Script, OutcomesOf, On;
    var line := Line(sys, ps, e);
    EventParses(sys, ps, e);
    ParseIn(s, p, line, 0);
    var u := Parse(line, 0).used;
    forall i | p + u <= i < p + |line| ensures s[i] != SOH && s[i] != ETX {
      OnChar(s, p, line, i - p);
    }
    ParseSkips(s, p + u, p + |line|);
    SameTurns(s, p + u, p + |line|, rest);
    OneTurnMore(s, p, Parse(line, 0).outcome, p + u, rest);
  }

  /** The bytes of an event are a whole turn with nothing behind it that starts another. */
  lemma EventParses(sys: Sys, ps: seq<Packet>, e: Event)
    requires Script(ps) && Legal(sys, ps, e) && !e.Lost?
    ensures var line := Line(sys, ps, e);
            var t := Parse(line, 0);
            && t.outcome != Starved && t.outcome != Cancelled && t.used <= |line|
            && forall i :: t.used <= i < |line| ==> line[i] != SOH && line[i] != ETX
  {
    hide Parse, Frame;
    var line := Line(sys, ps, e);
    if e.Intact? {
      var p, n := ps[sys.cur], Number(sys.cur);
      assert On(line, 0, line) by { assert line[0..0 + |line|] == line; }
      FrameParses(line, 0, n, p.kind, p.data);
    } else {
      Progress(line, 0);
    }
  }

  lemma SameTurns(s: seq<byte>, p: nat, q: nat, os: seq<Outcome>)
    requires p <= q <= |s| && Parse(s, p) == Parse(s, q) && OutcomesOf(s, q, os)
    ensures OutcomesOf(s, p, os)
  {
    hide Parse;
  }

  lemma OneTurnMore(s: seq<byte>, p: nat, o: Outcome, q: nat, rest: seq<Outcome>)
    requires p <= q <= |s| && Parse(s, p) == Turn(o, q) && OutcomesOf(s, q, rest)
    ensures OutcomesOf(s, p, [o] + rest)
  {
    hide Parse;
    assert ([o] + rest)[1..] == rest;
  }

  /** The turns of a run are those of the bytes it puts on the line. */
  lemma {:induction false} RunTurns(s: seq<byte>, p: nat, sys: Sys, ps: seq<Packet>, es: seq<Event>)
    requires Script(ps) && OkRx(sys.rx) && LegalRun(sys, ps, es)
    requires On(s, p, Heard(sys, ps, es)) && p + |Heard(sys, ps, es)| <= |s|
    ensures OutcomesOf(s, p, Turns(sys, ps, es))
    decreases |es|
  {
    hide Script, Step, On, Parse;
    if es != [] {
      var line, rest := Line(sys, ps, es[0]), Heard(Step(sys, ps, es[0]), ps, es[1..]);
      var after := Turns(Step(sys, ps, es[0]), ps, es[1..]);
      OnSplit(s, p, line, rest);
      RunTurns(s, p + |line|, Step(sys, ps, es[0]), ps, es[1..]);
      if es[0].Lost? { LostSkips(s, p, line, after); } else { EventTurn(s, p, sys, ps, es[0], after); }
    }
  }

  /** What is left of a lost copy is passed over on the way to the next turn. */
  lemma LostSkips(s: seq<byte>, p: nat, line: seq<byte>, after: seq<Outcome>)
    requires On(s, p, line) && p + |line| <= |s| && Dull(line) && OutcomesOf(s, p + |line|, after)
    ensures OutcomesOf(s, p, after)
  {
    hide Parse, On, OutcomesOf;
    forall i | p <= i < p + |line| ensures s[i] != SOH && s[i] != ETX {
      OnChar(s, p, line, i - p);
    }
    ParseSkips(s, p, p + |line|);
    SameTurns(s, p, p + |line|, after);
  }

  /** Folding the turns of a run is running it. */
  lemma {:induction false} TurnsFold(rx: Rx, os: seq<Outcome>, o: Outcome)
    requires OkRx(rx) && OkRx(Apply(rx, o))
    ensures ApplyAll(rx, [o] + os) == ApplyAll(Apply(rx, o), os)
    decreases |os|
  {
    hide Apply;
    if os == [] {
      assert [o] + os == [] + [o];
      ApplyOne(rx, [], o);
    } else {
      var front, last := os[..|os| - 1], os[|os| - 1];
      TurnsFold(rx, front, o);
      assert [o] + os == ([o] + front) + [last] && os == front + [last];
      ApplyOne(rx, [o] + front, last);
      ApplyOne(Apply(rx, o), front, last);
    }
  }

  lemma {:induction false} RunFolds(sys: Sys, ps: seq<Packet>, es: seq<Event>)
    requires OkRx(sys.rx) && LegalRun(sys, ps, es)
    ensures ApplyAll(sys.rx, Turns(sys, ps, es)) == Run(sys, ps, es).rx
    decreases |es|
  {
    hide Apply, Parse;
    if es != [] {
      var next := Step(sys, ps, es[0]);
      RunFolds(next, ps, es[1..]);
      if es[0].Lost? {
        DullStarves(es[0].line);
        StarvedNothing(sys.rx);
      } else {
        TurnsFold(sys.rx, Turns(next, ps, es[1..]), Parse(Line(sys, ps, es[0]), 0).outcome);
      }
    }
  }

  lemma StarvedNothing(rx: Rx)
    requires OkRx(rx)
    ensures Apply(rx, Starved) == rx
  {
  }

  /** A run that is done has accepted the break in its last turn, and in no other. */
  lemma {:induction false} TurnsEnd(sys: Sys, ps: seq<Packet>, es: seq<Event>)
    requires Script(ps) && OkRx(sys.rx) && LegalRun(sys, ps, es) && !sys.done
    ensures Run(sys, ps, es).done ==> EndsOnBreak(Turns(sys, ps, es))
    ensures AllEnded(Turns(sys, ps, es))
    decreases |es|
  {
    hide Parse, Apply, Script, EndsOnBreak, Line, AllEnded;
    NothingEnded();
    if es != [] {
      var e, next := es[0], Step(sys, ps, es[0]);
      var o, rest := Parse(Line(sys, ps, e), 0).outcome, Turns(next, ps, es[1..]);
      if e.Lost? { DullStarves(e.line); LostLine(sys, ps, e); } else { EventParses(sys, ps, e); }
      assert Run(sys, ps, es) == Run(next, ps, es[1..]);
      if next.done {
        DoneEnds(next, ps, es[1..]);
        assert rest == [] && [o] + rest == [o];
        assert !e.Lost?;
        assert Turns(sys, ps, es) == [o] + rest;
        BreakNow(o);
        LaterEnded(o, rest);
      } else {
        TurnsEnd(next, ps, es[1..]);
        var ts := Turns(sys, ps, es);
        assert ts == if e.Lost? then rest else [o] + rest;
        LaterEnded(o, rest);
        BreakLater(o, rest);
      }
    }
  }

  lemma LostLine(sys: Sys, ps: seq<Packet>, e: Event)
    requires sys.cur < |ps| && e.Lost?
    ensures Line(sys, ps, e) == e.line
  {
  }

  /** No turn waits forever or meets a ^C. */
  ghost predicate AllEnded(os: seq<Outcome>) {
    forall i :: 0 <= i < |os| ==> os[i] != Starved && os[i] != Cancelled
  }

  lemma NothingEnded()
    ensures AllEnded([])
  {
  }

  lemma LaterEnded(o: Outcome, rest: seq<Outcome>)
    requires AllEnded(rest)
    ensures o != Starved && o != Cancelled ==> AllEnded([o] + rest)
  {
  }

  lemma BreakNow(o: Outcome)
    ensures IsBreak(o) ==> EndsOnBreak([o])
  {
  }

  lemma BreakLater(o: Outcome, rest: seq<Outcome>)
    ensures !IsBreak(o) && EndsOnBreak(rest) ==> EndsOnBreak([o] + rest)
  {
  }

  lemma DoneEnds(sys: Sys, ps: seq<Packet>, es: seq<Event>)
    requires OkRx(sys.rx) && LegalRun(sys, ps, es) && sys.done
    ensures es == []
  {
  }

  /** Two accounts of the same line agree as far as they go. */
  lemma {:induction false} SameOutcomes(s: seq<byte>, p: nat, a: seq<Outcome>, b: seq<Outcome>)
    requires p <= |s| && OutcomesOf(s, p, a) && OutcomesOf(s, p, b) && |a| <= |b|
    ensures a == b[..|a|]
    decreases |a|
  {
    hide Parse;
    if a != [] {
      SameOutcomes(s, Parse(s, p).used, a[1..], b[1..]);
      assert a == [a[0]] + a[1..] && b == [b[0]] + b[1..];
    }
  }

  /** k_recv on the line of any legal run that gets its break through: it ends on that break,
      and its memory holds what the packets say, each once and in order. */
  lemma ReceiverDelivers(ps: seq<Packet>, es: seq<Event>, after: seq<byte>, os: seq<Outcome>, done: bool)
    requires Script(ps) && LegalRun(BEGIN, ps, es) && HarmlessRun(BEGIN, ps, es) && Run(BEGIN, ps, es).done
    requires OutcomesOf(Heard(BEGIN, ps, es) + after, 0, os)
    requires if done then EndsOnBreak(os) else EndsOtherwise(os)
    ensures done && Content(ApplyAll(START, os).data) == Said(ps, |ps|).bytes
  {
    hide Step, Said, LegalRun, HarmlessRun, Run, Script, Heard, Turns, OutcomesOf, ApplyAll, On;
    BeginInv(ps);
    var line := Heard(BEGIN, ps, es);
    var s := line + after;
    assert On(s, 0, line) by { Front(line, after); }
    RunTurns(s, 0, BEGIN, ps, es);
    RunFolds(BEGIN, ps, es);
    TurnsEnd(BEGIN, ps, es);
    Delivered(ps, es);
    var ts := Turns(BEGIN, ps, es);
    if |os| <= |ts| {
      SameOutcomes(s, 0, os, ts);
      assert os[|os| - 1] == ts[|os| - 1];
      assert os == ts[..|os|];
    } else {
      SameOutcomes(s, 0, ts, os);
    }
    if |os| == |ts| { assert ts[..|os|] == ts; }
  }

  /** And so any file, prefixed and cut into packets in any way, is in memory as it was. */
  lemma ReceiverFile(file: seq<byte>, quote: byte, ps: seq<Packet>, es: seq<Event>, after: seq<byte>, os: seq<Outcome>,
                     done: bool)
    requires GoodQuote(quote) && OneInit(ps, quote) && DataText(ps, |ps|) == Encode(quote, file)
    requires Script(ps) && LegalRun(BEGIN, ps, es) && HarmlessRun(BEGIN, ps, es) && Run(BEGIN, ps, es).done
    requires OutcomesOf(Heard(BEGIN, ps, es) + after, 0, os)
    requires if done then EndsOnBreak(os) else EndsOtherwise(os)
    ensures done && Content(ApplyAll(START, os).data) == file
  {
    hide Step, Said, LegalRun, HarmlessRun, Run, Script, Heard, OutcomesOf, ApplyAll, Decode, Encode;
    ReceiverDelivers(ps, es, after, os, done);
    SaidIsDecoded(ps, quote, |ps|);
    EncodeBack(quote, file);
  }

  lemma Front(a: seq<byte>, b: seq<byte>)
    ensures On(a + b, 0, a)
  {
    assert (a + b)[0..0 + |a|] == a;
  }
}

/** A whole transfer: a sender that repeats a packet until it hears the acknowledgement
    of its latest copy, a line that loses and damages packets and replies, and k_recv. */
module KermitProtocol {
  import opened KermitCode
  import opened KermitPacket
  import opened KermitState
  import opened Options

  datatype Packet = Packet(kind: byte, data: seq<byte>)

  /** Sequence numbers count modulo 64. */
  function Number(i: nat): byte { i % 64 }

  /** What a sender has to say: packets it may build, the last of them, and only that one,
      the break. */
  predicate Script(ps: seq<Packet>) {
    && ps != []
    && (forall i :: 0 <= i < |ps| ==> Sendable(0, ps[i].kind, ps[i].data))
    && (forall i :: 0 <= i < |ps| ==> (ps[i].kind == BREAK_TYPE <==> i == |ps| - 1))
  }

  /** What happens to one copy of the current packet. */
  datatype Event =
    | Intact(heard: bool)             // the copy arrives; the reply is heard or lost
    | Damaged(line: seq<byte>)        // what arrives instead has the right sequence character
    | HeaderDamaged(line: seq<byte>)  // what arrives is bad before its sequence character
    | NumberDamaged(line: seq<byte>)  // what arrives has another sequence character and fails its check
    | Lost(line: seq<byte>)           // at most some characters behind its start arrive

  datatype Sys = Sys(rx: Rx, cur: nat, done: bool)

  const BEGIN: Sys := Sys(START, 0, false)

  /** The bytes the receiver hears. */
  function Line(sys: Sys, ps: seq<Packet>, e: Event): seq<byte>
    requires sys.cur < |ps|
  {
    match e
    case Intact(_) => Frame(Number(sys.cur), ps[sys.cur].kind, ps[sys.cur].data)
    case Damaged(line) => line
    case HeaderDamaged(line) => line
    case NumberDamaged(line) => line
    case Lost(line) => line
  }

  /** Nothing behind a packet that failed looks like the start of another one. */
  predicate Quiet(line: seq<byte>) {
    forall i :: Parse(line, 0).used <= i < |line| ==> line[i] != SOH && line[i] != ETX
  }

  /** No character of it starts a packet or ends the session. */
  predicate Dull(line: seq<byte>) {
    forall i :: 0 <= i < |line| ==> line[i] != SOH && line[i] != ETX
  }

  /** The receiver goes on waiting for a start character. */
  lemma DullStarves(line: seq<byte>)
    requires Dull(line)
    ensures Parse(line, 0).outcome == Starved
  {
    ParseSkips(line, 0, |line|);
  }

  /** Damage is noticed, and of the kind the event names. */
  predicate Legal(sys: Sys, ps: seq<Packet>, e: Event) {
    && !sys.done && sys.cur < |ps|
    && match e
       case Intact(_) => true
       case Damaged(line) => Parse(line, 0).outcome.BodyError? && Parse(line, 0).outcome.n == Number(sys.cur)
            && Quiet(line)
       case HeaderDamaged(line) => Parse(line, 0).outcome == HeaderError && Quiet(line)
       case NumberDamaged(line) => Parse(line, 0).outcome.BodyError? && Parse(line, 0).outcome.n != Number(sys.cur)
            && Quiet(line)
       case Lost(line) => Dull(line)
  }

  /** The receiver takes a turn; the sender moves on when it hears its packet acknowledged. */
  function Step(sys: Sys, ps: seq<Packet>, e: Event): Sys
    requires sys.cur < |ps| && OkRx(sys.rx)
  {
    var o := Parse(Line(sys, ps, e), 0).outcome;
    var heard := e.Intact? && e.heard && o.Accepted? && o.n == Number(sys.cur);
    Sys(Apply(sys.rx, o), if heard then sys.cur + 1 else sys.cur, o.Accepted? && o.kind == Some(BREAK_TYPE))
  }

  ghost predicate LegalRun(sys: Sys, ps: seq<Packet>, es: seq<Event>)
    requires OkRx(sys.rx)
    decreases |es|
  {
    es != [] ==>
      && Legal(sys, ps, es[0])
      && OkRx(Step(sys, ps, es[0]).rx)
      && LegalRun(Step(sys, ps, es[0]), ps, es[1..])
  }

  ghost function Run(sys: Sys, ps: seq<Packet>, es: seq<Event>): Sys
    requires OkRx(sys.rx) && LegalRun(sys, ps, es)
    decreases |es|
  {
    if es == [] then sys else Run(Step(sys, ps, es[0]), ps, es[1..])
  }

  // ---- what the packets say ----

  /** The text decoded so far, a pending prefix, and the prefix agreed on. */
  datatype Text = Text(bytes: seq<byte>, esc: bool, quote: byte)

  function QuoteOf(s: seq<byte>): byte { if Params(s) >= 6 then s[5] else K_ESCAPE }

  function Read(t: Text, p: Packet): Text {
    if p.kind == DATA_TYPE then
      var d := Decode(t.esc, t.quote, p.data);
      Text(t.bytes + d.0, d.1, t.quote)
    else if p.kind == SEND_TYPE then t.(quote := QuoteOf(p.data))
    else t
  }

  /** What the first i packets say, each read once and in order. */
  function Said(ps: seq<Packet>, i: nat): Text
    requires i <= |ps|
  {
    if i == 0 then Text([], false, K_ESCAPE) else Read(Said(ps, i - 1), ps[i - 1])
  }

  // ---- one turn, seen from the text ----

  predicate Holds(rx: Rx, t: Text)
    requires OkRx(rx)
  {
    Content(rx.data) == t.bytes && rx.data.esc == t.esc
  }

  predicate Saved(rx: Rx, t: Text)
    requires OkRx(rx)
  {
    rx.data.mem[..rx.savedAddr] == t.bytes && rx.savedEsc == t.esc
  }

  lemma RestoreHolds(rx: Rx, t: Text)
    requires OkRx(rx) && Saved(rx, t)
    ensures OkRx(Restore(rx)) && Holds(Restore(rx), t) && Saved(Restore(rx), t)
    ensures Restore(rx).quote == rx.quote && Restore(rx).lastN == rx.lastN
  {
  }

  /** Taking a packet from checkpoint t: what it says is added behind the checkpoint. */
  lemma FedHolds(rx: Rx, t: Text, p: Packet)
    requires OkRx(rx) && Holds(rx, t) && Saved(rx, t)
    requires p.kind == DATA_TYPE ==> rx.quote == t.quote
    ensures var r := Fed(rx, Some(p.kind), p.data);
            && OkRx(r) && Saved(r, t) && r.quote == rx.quote && r.lastN == rx.lastN
            && Holds(r, Read(t, p))
  {
    hide DataChars, Decode;
    DataCharsDecode(rx.data, rx.quote, p.data);
    FedKeeps(rx, Some(p.kind), p.data);
  }

  /** Whatever is fed, the checkpoint stays. */
  lemma FedSaves(rx: Rx, t: Text, kind: Option<byte>, s: seq<byte>)
    requires OkRx(rx) && Saved(rx, t)
    ensures var r := Fed(rx, kind, s);
            OkRx(r) && Saved(r, t) && r.quote == rx.quote && r.lastN == rx.lastN && r.savedAddr == rx.savedAddr
  {
    hide DataChars;
    FedKeeps(rx, kind, s);
  }

  // ---- the invariant ----

  /** The receiver has met a copy of the current packet. */
  predicate Seen(sys: Sys) { sys.rx.lastN == Number(sys.cur) }

  ghost predicate Inv(sys: Sys, ps: seq<Packet>) {
    && OkRx(sys.rx) && sys.cur <= |ps|
    && (sys.done ==> Content(sys.rx.data) == Said(ps, |ps|).bytes)
    && (if Seen(sys) && sys.cur < |ps| then Trying(sys.rx, ps, sys.cur) else Fresh(sys, ps))
  }

  /** The checkpoint is before the current packet; the packet is in or it is not. */
  ghost predicate Trying(rx: Rx, ps: seq<Packet>, i: nat)
    requires OkRx(rx) && i < |ps|
  {
    && Saved(rx, Said(ps, i))
    && (rx.quote == Said(ps, i).quote || rx.quote == Said(ps, i + 1).quote)
    && (Holds(rx, Said(ps, i)) || (Holds(rx, Said(ps, i + 1)) && rx.quote == Said(ps, i + 1).quote))
  }

  /** Everything before the current packet is in, and nothing else. */
  ghost predicate Fresh(sys: Sys, ps: seq<Packet>)
    requires OkRx(sys.rx) && sys.cur <= |ps|
  {
    && !Seen(sys) && Holds(sys.rx, Said(ps, sys.cur))
    && (sys.rx.quote == Said(ps, sys.cur).quote || (sys.cur < |ps| && sys.rx.quote == Said(ps, sys.cur + 1).quote))
  }

  /** Before a packet of number n is taken the checkpoint is where the text before it ends. */
  lemma BeginHolds(sys: Sys, ps: seq<Packet>)
    requires Inv(sys, ps) && sys.cur < |ps|
    ensures var r := Begin(sys.rx, Number(sys.cur));
            && OkRx(r) && Holds(r, Said(ps, sys.cur)) && Saved(r, Said(ps, sys.cur)) && r.lastN == Number(sys.cur)
            && (r.quote == Said(ps, sys.cur).quote || r.quote == Said(ps, sys.cur + 1).quote)
  {
    hide Said;
    if Seen(sys) {
      RestoreHolds(sys.rx, Said(ps, sys.cur));
    }
  }

  /** Only a send-initiate packet changes the prefix. */
  lemma QuoteStays(ps: seq<Packet>, i: nat)
    requires i < |ps|
    ensures ps[i].kind != SEND_TYPE ==> Said(ps, i + 1).quote == Said(ps, i).quote
    ensures Said(ps, i + 1) == Read(Said(ps, i), ps[i])
  {
  }

  /** An accepted packet: what it says is added, and its prefix is agreed on. */
  lemma AcceptedHolds(rx: Rx, n: byte, t: Text, p: Packet)
    requires OkRx(rx) && OkRx(Begin(rx, n)) && Holds(Begin(rx, n), t) && Saved(Begin(rx, n), t)
    requires p.kind != SEND_TYPE ==> rx.quote == t.quote
    ensures var r := Apply(rx, Accepted(n, Some(p.kind), p.data));
            && OkRx(r) && Saved(r, t) && Holds(r, Read(t, p)) && r.quote == Read(t, p).quote
               && r.lastN == Begin(rx, n).lastN
  {
    hide Decode, DataChars, Params;
    FedHolds(Begin(rx, n), t, p);
    NegotiatedQuote(Taken(rx, Accepted(n, Some(p.kind), p.data)), p.data);
  }

  lemma NegotiatedQuote(rx: Rx, s: seq<byte>)
    requires OkRx(rx)
    ensures var r := Negotiated(rx, s);
            OkRx(r) && r.quote == QuoteOf(s) && r.data == rx.data && r.lastN == rx.lastN
            && r.savedAddr == rx.savedAddr && r.savedEsc == rx.savedEsc
  {
    hide Ktrans;
  }

  lemma IntactKeeps(sys: Sys, ps: seq<Packet>, e: Event)
    requires Script(ps) && Inv(sys, ps) && Legal(sys, ps, e) && e.Intact?
    ensures Inv(Step(sys, ps, e), ps)
  {
    hide Said, Parse, Frame, Read, Apply, Begin;
    var i, p := sys.cur, ps[sys.cur];
    var n := Number(i);
    WholeFrame(n, p);
    BeginHolds(sys, ps);
    QuoteStays(ps, i);
    BeginQuote(sys.rx, n);
    AcceptedHolds(sys.rx, n, Said(ps, i), p);
    NextNumber(i);
  }

  lemma BeginQuote(rx: Rx, n: byte)
    ensures Begin(rx, n).quote == rx.quote
  {
  }

  lemma NextNumber(i: nat)
    ensures Number(i + 1) != Number(i)
  {
  }

  lemma WholeFrame(n: byte, p: Packet)
    requires n < 64 && Sendable(0, p.kind, p.data)
    ensures Parse(Frame(n, p.kind, p.data), 0).outcome == Accepted(n, Some(p.kind), p.data)
  {
    hide Frame, Parse;
    var f := Frame(n, p.kind, p.data);
    assert On(f, 0, f) by { assert f[0..0 + |f|] == f; }
    FrameParses(f, 0, n, p.kind, p.data);
  }

  /** A noticed damage behind the sequence character leaves the text where the packet found it. */
  lemma DamagedKeeps(sys: Sys, ps: seq<Packet>, e: Event)
    requires Inv(sys, ps) && Legal(sys, ps, e) && e.Damaged?
    ensures Inv(Step(sys, ps, e), ps)
  {
    hide Said, Parse, Read, Fed, Begin, Frame;
    var o := Parse(e.line, 0).outcome;
    BeginHolds(sys, ps);
    BeginQuote(sys.rx, o.n);
    var r := Begin(sys.rx, o.n);
    FedSaves(r, Said(ps, sys.cur), o.kind, o.data);
    RestoreHolds(Fed(r, o.kind, o.data), Said(ps, sys.cur));
  }

  lemma LostKeeps(sys: Sys, ps: seq<Packet>, e: Event)
    requires Inv(sys, ps) && Legal(sys, ps, e) && e.Lost?
    ensures Inv(Step(sys, ps, e), ps)
  {
    hide Said, Read, Parse;
    DullStarves(e.line);
  }

  /** The receiver stands where its checkpoint is. */
  predicate AtCheckpoint(rx: Rx) { rx.savedAddr == rx.data.addr && rx.savedEsc == rx.data.esc }

  /** When damage to a header does no harm. A number that does not arrive rolls back to the
      checkpoint, which is right when the packet is already being tried; a wrong one makes a
      checkpoint, which is right when it is not. Nothing matters at the checkpoint. */
  predicate Harmless(sys: Sys, e: Event) {
    match e
    case HeaderDamaged(_) => AtCheckpoint(sys.rx) || Seen(sys)
    case NumberDamaged(line) =>
      AtCheckpoint(sys.rx) || (!Seen(sys) && Parse(line, 0).outcome.BodyError?
                               && Parse(line, 0).outcome.n != sys.rx.lastN)
    case _ => true
  }

  lemma HeaderKeeps(sys: Sys, ps: seq<Packet>, e: Event)
    requires Inv(sys, ps) && Legal(sys, ps, e) && e.HeaderDamaged? && Harmless(sys, e)
    ensures Inv(Step(sys, ps, e), ps)
  {
    hide Said, Parse, Read;
    if Seen(sys) {
      RestoreHolds(sys.rx, Said(ps, sys.cur));
    }
  }

  lemma NumberKeeps(sys: Sys, ps: seq<Packet>, e: Event)
    requires Inv(sys, ps) && Legal(sys, ps, e) && e.NumberDamaged? && Harmless(sys, e)
    ensures Inv(Step(sys, ps, e), ps)
  {
    hide Said, Parse, Read, Fed, Frame;
    var o, t := Parse(e.line, 0).outcome, Said(ps, sys.cur);
    assert Holds(sys.rx, t);
    BeginQuote(sys.rx, o.n);
    var r := Begin(sys.rx, o.n);
    assert OkRx(r) && Saved(r, t);
    FedSaves(r, t, o.kind, o.data);
    RestoreHolds(Fed(r, o.kind, o.data), t);
  }

  /** Every damage meets a receiver it does not harm. */
  ghost predicate HarmlessRun(sys: Sys, ps: seq<Packet>, es: seq<Event>)
    requires OkRx(sys.rx) && LegalRun(sys, ps, es)
    decreases |es|
  {
    es != [] ==>
      && Harmless(sys, es[0])
      && HarmlessRun(Step(sys, ps, es[0]), ps, es[1..])
  }

  lemma StepKeeps(sys: Sys, ps: seq<Packet>, e: Event)
    requires Script(ps) && Inv(sys, ps) && Legal(sys, ps, e) && Harmless(sys, e)
    ensures Inv(Step(sys, ps, e), ps)
  {
    hide Inv, Step, Harmless;
    match e {
      case Intact(_) => IntactKeeps(sys, ps, e);
      case Damaged(_) => DamagedKeeps(sys, ps, e);
      case HeaderDamaged(_) => HeaderKeeps(sys, ps, e);
      case NumberDamaged(_) => NumberKeeps(sys, ps, e);
      case Lost(_) => LostKeeps(sys, ps, e);
    }
  }

  lemma {:induction false} RunKeeps(sys: Sys, ps: seq<Packet>, es: seq<Event>)
    requires Script(ps) && Inv(sys, ps) && LegalRun(sys, ps, es) && HarmlessRun(sys, ps, es)
    ensures OkRx(Run(sys, ps, es).rx) && Inv(Run(sys, ps, es), ps)
    decreases |es|
  {
    hide Step, Harmless, Script, Parse;
    if es != [] {
      StepKeeps(sys, ps, es[0]);
      RunKeeps(Step(sys, ps, es[0]), ps, es[1..]);
    }
  }

  lemma BeginInv(ps: seq<Packet>)
    ensures Inv(BEGIN, ps) && OkRx(BEGIN.rx)
  {
  }

  /** Exactly once, in order: when the receiver has ended on the break, its memory holds
      what the packets say, for every pattern of lost and damaged packets and lost replies. */
  lemma Delivered(ps: seq<Packet>, es: seq<Event>)
    requires Script(ps) && LegalRun(BEGIN, ps, es) && HarmlessRun(BEGIN, ps, es) && Run(BEGIN, ps, es).done
    ensures OkRx(Run(BEGIN, ps, es).rx)
    ensures Content(Run(BEGIN, ps, es).rx.data) == Said(ps, |ps|).bytes
  {
    hide Step, Said, LegalRun, HarmlessRun, Run, Script;
    BeginInv(ps);
    RunKeeps(BEGIN, ps, es);
  }

  // ---- files ----

  /** The data characters of the first i packets, one after the other. */
  function DataText(ps: seq<Packet>, i: nat): seq<byte>
    requires i <= |ps|
  {
    if i == 0 then []
    else DataText(ps, i - 1) + (if ps[i - 1].kind == DATA_TYPE then ps[i - 1].data else [])
  }

  /** One send-initiate packet in front that agrees on the prefix, and no other. */
  predicate OneInit(ps: seq<Packet>, quote: byte) {
    && ps != [] && ps[0].kind == SEND_TYPE && QuoteOf(ps[0].data) == quote
    && forall i :: 0 < i < |ps| ==> ps[i].kind != SEND_TYPE
  }

  /** What is said is the data text decoded as one, wherever it was cut. */
  lemma {:induction false} SaidIsDecoded(ps: seq<Packet>, quote: byte, i: nat)
    requires OneInit(ps, quote) && 0 < i <= |ps|
    ensures var d := Decode(false, quote, DataText(ps, i));
            Said(ps, i) == Text(d.0, d.1, quote)
  {
    hide Decode;
    if i == 1 {
      assert Said(ps, 0) == Text([], false, K_ESCAPE);
      assert DataText(ps, 0) == [] && DataText(ps, 1) == [] + [];
      NothingDecoded(quote);
    } else {
      SaidIsDecoded(ps, quote, i - 1);
      var t, p := DataText(ps, i - 1), ps[i - 1];
      if p.kind == DATA_TYPE {
        DecodeCut(false, quote, t, p.data);
      } else {
        assert t + [] == t;
      }
    }
  }

  /** Any file, prefixed and cut into packets in any way, arrives as it was. */
  lemma FileDelivered(file: seq<byte>, quote: byte, ps: seq<Packet>, es: seq<Event>)
    requires GoodQuote(quote) && OneInit(ps, quote) && DataText(ps, |ps|) == Encode(quote, file)
    requires Script(ps) && LegalRun(BEGIN, ps, es) && HarmlessRun(BEGIN, ps, es) && Run(BEGIN, ps, es).done
    ensures OkRx(Run(BEGIN, ps, es).rx) && Content(Run(BEGIN, ps, es).rx.data) == file
  {
    hide Step, Said, LegalRun, HarmlessRun, Run, Script, Decode, Encode;
    Delivered(ps, es);
    SaidIsDecoded(ps, quote, |ps|);
    EncodeBack(quote, file);
  }
}
